/**
 The mime-type matcher the plugin compiles at registration: the regular
 expression `(<escaped mime type>)` with the case-insensitive flag. The
 pattern text is parsed into atoms, and a match is a window of the header in
 which every atom matches its character. Case folding is ASCII lower-casing.
 */
module MimeMatch {
  import opened Wrappers
  import opened RegExpEscape

  /** One pattern position: a literal character, or pattern syntax. */
  datatype Atom = Lit(c: char) | Syntax(c: char)

  /**
   Reads a pattern body into atoms. A backslash before a metacharacter is that
   character taken literally; any other backslash and every bare metacharacter
   is pattern syntax; every other character is itself.
   */
  function ParseAtoms(p: string): (atoms: seq<Atom>)
    ensures |atoms| <= |p|
    decreases |p|
  {
    if p == [] then []
    else if p[0] == '\\' then
      if 2 <= |p| && IsMeta(p[1]) then [Lit(p[1])] + ParseAtoms(p[2..])
      else [Syntax(p[0])] + ParseAtoms(p[1..])
    else if IsMeta(p[0]) then [Syntax(p[0])] + ParseAtoms(p[1..])
    else [Lit(p[0])] + ParseAtoms(p[1..])
  }

  /** The atoms of a pattern that matches the text `t` literally. */
  function Literal(t: string): seq<Atom>
  {
    seq(|t|, i requires 0 <= i < |t| => Lit(t[i]))
  }

  /** The pattern source the plugin builds for a mime type: one capture group around the escape. */
  function PatternSource(mime: string): string
  {
    "(" + Escape(mime) + ")"
  }

  /**
   Compiles a pattern source of the shape `PatternSource` builds: one capture
   group around the whole pattern, which does not change whether it matches,
   so its parentheses are dropped. Sources with several groups, such as
   `(a)|(b)`, never reach it and are not read correctly by it.
   */
  function Compile(source: string): seq<Atom>
  {
    if 2 <= |source| && source[0] == '(' && source[|source| - 1] == ')'
    then ParseAtoms(source[1..|source| - 1])
    else ParseAtoms(source)
  }

  /** ASCII lower-casing, the model's stand-in for the regular expression's case folding. */
  function Lower(c: char): char
  {
    if 'A' <= c <= 'Z' then (c as int + 32) as char else c
  }

  function LowerStr(s: string): string
  {
    seq(|s|, i requires 0 <= i < |s| => Lower(s[i]))
  }

  /** The window of `h` starting at `i` equals `t` once both are lower-cased. */
  predicate WindowEquals(h: string, t: string, i: int)
    requires 0 <= i <= |h| - |t|
  {
    LowerStr(h[i..i + |t|]) == LowerStr(t)
  }

  /** The reference meaning of the matcher: `h` contains `t` as a substring, ignoring case. */
  predicate ContainsIgnoringCase(h: string, t: string)
  {
    exists i :: 0 <= i <= |h| - |t| && WindowEquals(h, t, i)
  }

  /** A literal atom matches its character up to case; pattern syntax is never produced by the escape. */
  predicate AtomMatches(a: Atom, x: char)
  {
    a.Lit? && Lower(a.c) == Lower(x)
  }

  predicate MatchesAt(atoms: seq<Atom>, h: string, i: int)
    requires 0 <= i <= |h| - |atoms|
  {
    forall k :: 0 <= k < |atoms| ==> AtomMatches(atoms[k], h[i + k])
  }

  /** Whether the compiled pattern finds a match anywhere in `h` (a non-null `exec` result). */
  predicate Matches(atoms: seq<Atom>, h: string)
  {
    exists i :: 0 <= i <= |h| - |atoms| && MatchesAt(atoms, h, i)
  }

  /** The escaped text parses back to the target read literally: no pattern syntax survives. */
  lemma {:induction false} ParseEscape(t: string)
    ensures ParseAtoms(Escape(t)) == Literal(t)
  {
    if t != [] {
      var rest := Escape(t[1..]);
      var p := EscapeChar(t[0]) + rest;
      assert Escape(t) == p;
      ParseEscape(t[1..]);
      if IsMeta(t[0]) {
        assert p[0] == '\\' && p[1] == t[0];
        assert p[2..] == rest;
        assert ParseAtoms(p) == [Lit(t[0])] + ParseAtoms(rest);
      } else {
        assert p[0] == t[0] && t[0] != '\\';
        assert p[1..] == rest;
        assert ParseAtoms(p) == [Lit(t[0])] + ParseAtoms(rest);
      }
      assert Literal(t) == [Lit(t[0])] + Literal(t[1..]);
    }
  }

  /** The compiled pattern for a mime type is that mime type, read literally. */
  lemma CompilePattern(t: string)
    ensures Compile(PatternSource(t)) == Literal(t)
  {
    var src := PatternSource(t);
    assert src[0] == '(' && src[|src| - 1] == ')';
    assert src[1..|src| - 1] == Escape(t);
    ParseEscape(t);
  }

  lemma LiteralMatchesAt(t: string, h: string, i: int)
    requires 0 <= i <= |h| - |t|
    ensures MatchesAt(Literal(t), h, i) <==> WindowEquals(h, t, i)
  {
    var w := h[i..i + |t|];
    if MatchesAt(Literal(t), h, i) {
      assert forall k :: 0 <= k < |t| ==> LowerStr(w)[k] == LowerStr(t)[k] by {
        forall k | 0 <= k < |t| ensures LowerStr(w)[k] == LowerStr(t)[k] {
          assert AtomMatches(Literal(t)[k], h[i + k]);
        }
      }
    }
    if WindowEquals(h, t, i) {
      forall k | 0 <= k < |t| ensures AtomMatches(Literal(t)[k], h[i + k]) {
        assert LowerStr(w)[k] == LowerStr(t)[k];
      }
    }
  }

  /** A literal pattern matches exactly the texts that contain it, ignoring case. */
  lemma LiteralMatches(t: string, h: string)
    ensures Matches(Literal(t), h) <==> ContainsIgnoringCase(h, t)
  {
    if Matches(Literal(t), h) {
      var i :| 0 <= i <= |h| - |Literal(t)| && MatchesAt(Literal(t), h, i);
      LiteralMatchesAt(t, h, i);
    }
    if ContainsIgnoringCase(h, t) {
      var i :| 0 <= i <= |h| - |t| && WindowEquals(h, t, i);
      LiteralMatchesAt(t, h, i);
    }
  }

  /**
   The matcher built from a mime type is a case-insensitive substring test for
   that mime type; its metacharacters are matched literally.
   */
  lemma CompiledMatcherIsSubstringTest(mime: string, h: string)
    ensures Matches(Compile(PatternSource(mime)), h) <==> ContainsIgnoringCase(h, mime)
  {
    CompilePattern(mime);
    LiteralMatches(mime, h);
  }

  /** A header holding the target anywhere, with anything before or after it, matches. */
  lemma ContainsWithin(prefix: string, t: string, suffix: string)
    ensures ContainsIgnoringCase(prefix + t + suffix, t)
  {
    var h := prefix + t + suffix;
    assert h[|prefix|..|prefix| + |t|] == t;
    assert WindowEquals(h, t, |prefix|);
  }

  lemma LowerSlice(s: string, i: int, j: int)
    requires 0 <= i <= j <= |s|
    ensures LowerStr(s[i..j]) == LowerStr(s)[i..j]
  {
  }

  /** Matching ignores case on the header side: headers equal up to case match the same targets. */
  lemma ContainsIgnoresCase(h1: string, h2: string, t: string)
    requires LowerStr(h1) == LowerStr(h2)
    ensures ContainsIgnoringCase(h1, t) <==> ContainsIgnoringCase(h2, t)
  {
    assert |h1| == |h2|;
    forall i | 0 <= i <= |h1| - |t| ensures WindowEquals(h1, t, i) <==> WindowEquals(h2, t, i) {
      LowerSlice(h1, i, i + |t|);
      LowerSlice(h2, i, i + |t|);
    }
  }

  /** One position where the window and the target differ, ignoring case, rules the window out. */
  lemma WindowDiffers(h: string, t: string, i: int, k: int)
    requires 0 <= i <= |h| - |t|
    requires 0 <= k < |t| && Lower(h[i + k]) != Lower(t[k])
    ensures !WindowEquals(h, t, i)
  {
    assert LowerStr(h[i..i + |t|])[k] != LowerStr(t)[k];
  }

  /** A target occurs nowhere when every window has a position, `at[i]` for window `i`, that differs. */
  lemma NotContained(h: string, t: string, at: seq<int>)
    requires |t| <= |h| && |at| == |h| - |t| + 1
    requires forall i :: 0 <= i < |at| ==> 0 <= at[i] < |t| && Lower(h[i + at[i]]) != Lower(t[at[i]])
    ensures !ContainsIgnoringCase(h, t)
  {
    forall i | 0 <= i <= |h| - |t| ensures !WindowEquals(h, t, i) {
      WindowDiffers(h, t, i, at[i]);
    }
  }

  /**
   Runs the compiled pattern over a header and returns the leftmost match
   position, or None when there is no match.
   */
  method FindLeftmost(atoms: seq<Atom>, h: string) returns (r: Option<nat>)
    ensures r.Some? <==> Matches(atoms, h)
    ensures r.Some? ==> r.value <= |h| - |atoms| && MatchesAt(atoms, h, r.value)
    ensures r.Some? ==> forall j :: 0 <= j < r.value ==> !MatchesAt(atoms, h, j)
  {
    if |h| < |atoms| {
      return None;
    }
    var i := 0;
    while i <= |h| - |atoms|
      invariant 0 <= i <= |h| - |atoms| + 1
      invariant forall j :: 0 <= j < i ==> !MatchesAt(atoms, h, j)
    {
      var k := 0;
      while k < |atoms| && AtomMatches(atoms[k], h[i + k])
        invariant 0 <= k <= |atoms|
        invariant forall m :: 0 <= m < k ==> AtomMatches(atoms[m], h[i + m])
      {
        k := k + 1;
      }
      if k == |atoms| {
        assert MatchesAt(atoms, h, i);
        return Some(i);
      }
      i := i + 1;
    }
    return None;
  }
}
