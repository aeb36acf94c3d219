/** `_clean_output`: inside a conditional comment BeautifulSoup writes `<` and
    `>` as `&lt;` and `&gt;`; the inliner turns them back. */
module Sanitizer {

  /** `s.replace(pat, rep)`: left to right, non-overlapping occurrences. */
  function Replace(s: string, pat: string, rep: string): string
    requires pat != []
    decreases |s|
  {
    if |s| < |pat| then s
    else if s[..|pat|] == pat then rep + Replace(s[|pat|..], pat, rep)
    else [s[0]] + Replace(s[1..], pat, rep)
  }

  /** `comment.replace('&gt;', '>').replace('&lt;', '<')` */
  function Unescape(comment: string): string
  {
    Replace(Replace(comment, "&gt;", ">"), "&lt;", "<")
  }

  /** How the serializer writes one character of a comment's text. */
  function EscapeChar(c: char): string
  {
    if c == '<' then "&lt;" else if c == '>' then "&gt;" else [c]
  }

  /** The comment text as BeautifulSoup writes it: `<` and `>` as entities. */
  function Escape(t: string): string
  {
    if t == [] then [] else EscapeChar(t[0]) + Escape(t[1..])
  }

  /** The same with only `<` written as an entity: what is left after `&gt;` is undone. */
  function EscapeLt(t: string): string
  {
    if t == [] then [] else (if t[0] == '<' then "&lt;" else [t[0]]) + EscapeLt(t[1..])
  }

  /** A character that cannot start the pattern passes through unchanged. */
  lemma ReplaceSkips(c: char, rest: string, pat: string, rep: string)
    requires pat != [] && c != pat[0]
    ensures Replace([c] + rest, pat, rep) == [c] + Replace(rest, pat, rep)
  {
    assert ([c] + rest)[1..] == rest;
    if |[c] + rest| >= |pat| {
      assert ([c] + rest)[..|pat|][0] == c;
    } else {
      assert |rest| < |pat|;
    }
  }

  /** An occurrence at the front is replaced and scanning resumes after it. */
  lemma ReplaceHits(pat: string, rest: string, rep: string)
    requires pat != []
    ensures Replace(pat + rest, pat, rep) == rep + Replace(rest, pat, rep)
  {
    assert (pat + rest)[..|pat|] == pat;
    assert (pat + rest)[|pat|..] == rest;
  }

  /** A string free of `&` has no entity to undo. */
  lemma {:induction false} ReplaceWithoutAmpersand(s: string, pat: string, rep: string)
    requires pat != [] && pat[0] == '&' && '&' !in s
    ensures Replace(s, pat, rep) == s
  {
    if s != [] {
      ReplaceWithoutAmpersand(s[1..], pat, rep);
      ReplaceSkips(s[0], s[1..], pat, rep);
      assert s == [s[0]] + s[1..];
    }
  }

  /** `&lt;` followed by more text does not start with `&gt;`: it passes through. */
  lemma LtPassesGt(rest: string)
    ensures Replace("&lt;" + rest, "&gt;", ">") == "&lt;" + Replace(rest, "&gt;", ">")
  {
    var s := "&lt;" + rest;
    assert s[..4] != "&gt;" by { assert s[1] == 'l'; }
    assert s[1..] == ['l'] + (['t'] + ([';'] + rest));
    ReplaceSkips('l', ['t'] + ([';'] + rest), "&gt;", ">");
    ReplaceSkips('t', [';'] + rest, "&gt;", ">");
    ReplaceSkips(';', rest, "&gt;", ">");
  }

  /** Undoing `&gt;` on the serializer's text leaves only `<` escaped. */
  lemma {:induction false} UndoGt(t: string)
    requires '&' !in t
    ensures Replace(Escape(t), "&gt;", ">") == EscapeLt(t)
  {
    if t != [] {
      var c, rest := t[0], Escape(t[1..]);
      UndoGt(t[1..]);
      if c == '>' {
        ReplaceHits("&gt;", rest, ">");
      } else if c == '<' {
        LtPassesGt(rest);
      } else {
        ReplaceSkips(c, rest, "&gt;", ">");
      }
    }
  }

  /** Undoing `&lt;` on that gives back the original text. */
  lemma {:induction false} UndoLt(t: string)
    requires '&' !in t
    ensures Replace(EscapeLt(t), "&lt;", "<") == t
  {
    if t != [] {
      var c, rest := t[0], EscapeLt(t[1..]);
      UndoLt(t[1..]);
      if c == '<' {
        ReplaceHits("&lt;", rest, "<");
      } else {
        ReplaceSkips(c, rest, "&lt;", "<");
      }
      assert t == [c] + t[1..];
    }
  }

  /** `_clean_output` undoes the serializer's escaping of a conditional comment
      whose text holds no `&`. */
  lemma UnescapeUndoesEscape(t: string)
    requires '&' !in t
    ensures Unescape(Escape(t)) == t
  {
    UndoGt(t);
    UndoLt(t);
  }

  /** Text without `&` is left as it is. */
  lemma UnescapeWithoutAmpersand(s: string)
    requires '&' !in s
    ensures Unescape(s) == s
  {
    ReplaceWithoutAmpersand(s, "&gt;", ">");
    ReplaceWithoutAmpersand(s, "&lt;", "<");
  }

  /** Replacing a pattern by something no longer never lengthens the text. */
  lemma {:induction false} ReplaceNoLonger(s: string, pat: string, rep: string)
    requires pat != [] && |rep| <= |pat|
    ensures |Replace(s, pat, rep)| <= |s|
    decreases |s|
  {
    if |s| >= |pat| {
      if s[..|pat|] == pat {
        ReplaceNoLonger(s[|pat|..], pat, rep);
      } else {
        ReplaceNoLonger(s[1..], pat, rep);
      }
    }
  }

  /** The output with the region `[start, end)` replaced by its unescaped text. */
  function CleanRegion(output: string, start: nat, end: nat): string
    requires start <= end <= |output|
  {
    output[..start] + Unescape(output[start..end]) + output[end..]
  }

  /** Only the region changes: the text before and after it is kept, and the
      output does not grow. */
  lemma CleanRegionKeepsOutside(output: string, start: nat, end: nat)
    requires start <= end <= |output|
    ensures var r := CleanRegion(output, start, end);
      && |output| - end <= |r| <= |output|
      && output[..start] <= r
      && r[|r| - (|output| - end)..] == output[end..]
  {
    ReplaceNoLonger(output[start..end], "&gt;", ">");
    ReplaceNoLonger(Replace(output[start..end], "&gt;", ">"), "&lt;", "<");
  }

  /** A region without `&` holds no entity: the output is unchanged. */
  lemma CleanRegionWithoutEntities(output: string, start: nat, end: nat)
    requires start <= end <= |output|
    requires '&' !in output[start..end]
    ensures CleanRegion(output, start, end) == output
  {
    UnescapeWithoutAmpersand(output[start..end]);
    assert output[..start] + output[start..end] + output[end..] == output;
  }
}
