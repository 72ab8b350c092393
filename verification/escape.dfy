/**
 The literal-pattern escape the plugin applies to its configured mime type
 before turning it into a regular expression: every regular-expression
 metacharacter gets one backslash in front of it, every other character is
 kept as it is, in order.
 */
module RegExpEscape {

  /** The characters of the escape's character class: . * + ? ^ $ { } ( ) | [ ] and backslash. */
  predicate IsMeta(c: char)
  {
    || c == '.' || c == '*' || c == '+' || c == '?' || c == '^' || c == '$' || c == '{'
    || c == '}' || c == '(' || c == ')' || c == '|' || c == '[' || c == ']' || c == '\\'
  }

  /** What the global replace writes for one character of its input. */
  function EscapeChar(c: char): string
  {
    if IsMeta(c) then ['\\', c] else [c]
  }

  /** The number of metacharacters in `s`. */
  function CountMeta(s: string): nat
  {
    if s == [] then 0 else (if IsMeta(s[0]) then 1 else 0) + CountMeta(s[1..])
  }

  /** The escape: a left-to-right global replace of each metacharacter by backslash + itself. */
  function Escape(s: string): (r: string)
    ensures |r| == |s| + CountMeta(s)
  {
    if s == [] then [] else EscapeChar(s[0]) + Escape(s[1..])
  }

  /** Reads a pattern back as text: a backslash followed by a character stands for that character. */
  function Unescape(p: string): (r: string)
    ensures |r| <= |p|
  {
    if p == [] then []
    else if p[0] == '\\' && 2 <= |p| then [p[1]] + Unescape(p[2..])
    else [p[0]] + Unescape(p[1..])
  }

  /** Removing the inserted backslashes gives back the input. */
  lemma {:induction false} UnescapeEscape(s: string)
    ensures Unescape(Escape(s)) == s
  {
    if s != [] {
      var rest := Escape(s[1..]);
      var p := EscapeChar(s[0]) + rest;
      assert Escape(s) == p;
      UnescapeEscape(s[1..]);
      if IsMeta(s[0]) {
        assert p[0] == '\\' && p[1] == s[0];
        assert p[2..] == rest;
      } else {
        assert p[0] == s[0] && s[0] != '\\';
        assert p[1..] == rest;
      }
      assert s == [s[0]] + s[1..];
    }
  }

  /** The escape works character by character: escaping a concatenation concatenates the escapes. */
  lemma {:induction false} EscapeAppend(a: string, b: string)
    ensures Escape(a + b) == Escape(a) + Escape(b)
  {
    if a == [] {
      assert a + b == b;
    } else {
      assert (a + b)[0] == a[0];
      assert (a + b)[1..] == a[1..] + b;
      EscapeAppend(a[1..], b);
    }
  }

  /**
   Each character of the input appears in the output in its own place, in
   order, as its own escape: one backslash before a metacharacter, the
   character alone otherwise.
   */
  lemma EscapeInPlace(head: string, c: char, tail: string)
    ensures Escape(head + [c] + tail) == Escape(head) + EscapeChar(c) + Escape(tail)
  {
    assert Escape([c] + tail) == EscapeChar(c) + Escape(tail) by {
      assert ([c] + tail)[0] == c;
      assert ([c] + tail)[1..] == tail;
    }
    assert head + [c] + tail == head + ([c] + tail);
    EscapeAppend(head, [c] + tail);
  }

  /** A text with no metacharacter is exactly the one the escape leaves unchanged. */
  lemma {:induction false} EscapeUnchangedIff(s: string)
    ensures Escape(s) == s <==> forall i :: 0 <= i < |s| ==> !IsMeta(s[i])
  {
    if s == [] {
    } else {
      EscapeUnchangedIff(s[1..]);
      if Escape(s) == s {
        assert CountMeta(s) == 0;
        assert !IsMeta(s[0]);
        assert Escape(s) == [s[0]] + Escape(s[1..]);
        assert Escape(s[1..]) == s[1..];
        forall i | 0 <= i < |s| ensures !IsMeta(s[i]) {
          if i > 0 { assert s[i] == s[1..][i - 1]; }
        }
      }
      if forall i :: 0 <= i < |s| ==> !IsMeta(s[i]) {
        assert !IsMeta(s[0]);
        assert forall i :: 0 <= i < |s[1..]| ==> !IsMeta(s[1..][i]) by {
          forall i | 0 <= i < |s[1..]| ensures !IsMeta(s[1..][i]) { assert s[1..][i] == s[i + 1]; }
        }
        assert s == [s[0]] + s[1..];
      }
    }
  }
}
