// String helpers used by the suggestion engine: the parts of JavaScript's
// String API that main.ts relies on, stated over Dafny strings (seq<char>).

module Text {

  /** ASCII lower-casing of one character (toLowerCase restricted to A-Z). */
  function LowerChar(c: char): char {
    if 'A' <= c <= 'Z' then (c as int + 32) as char else c
  }

  /** String.prototype.toLowerCase, character by character. */
  function Lower(s: string): (r: string)
    ensures |r| == |s|
    ensures forall i :: 0 <= i < |s| ==> r[i] == LowerChar(s[i])
  {
    seq(|s|, i requires 0 <= i < |s| => LowerChar(s[i]))
  }

  lemma LowerIdempotent(s: string)
    ensures Lower(Lower(s)) == Lower(s)
  {
  }

  lemma LowerConcat(a: string, b: string)
    ensures Lower(a + b) == Lower(a) + Lower(b)
  {
  }

  /** The characters String.prototype.trim removes: WhiteSpace and LineTerminator. */
  predicate IsWhitespace(c: char) {
    || c == '\t' || c == '\U{000B}' || c == '\U{000C}' || c == ' ' || c == '\U{00A0}'
    || c == '\U{FEFF}' || c == '\U{1680}' || ('\U{2000}' <= c <= '\U{200A}')
    || c == '\U{202F}' || c == '\U{205F}' || c == '\U{3000}'
    || c == '\n' || c == '\r' || c == '\U{2028}' || c == '\U{2029}'
  }

  predicate AllWhitespace(s: string) {
    forall i :: 0 <= i < |s| ==> IsWhitespace(s[i])
  }

  /** Drops leading whitespace. */
  function TrimStart(s: string): string {
    if |s| > 0 && IsWhitespace(s[0]) then TrimStart(s[1..]) else s
  }

  /** What TrimStart removes is a whitespace prefix, and what it leaves
      starts with a non-whitespace character unless it is empty. */
  lemma {:induction false} TrimStartProperties(s: string)
    ensures |TrimStart(s)| <= |s| && TrimStart(s) == s[|s| - |TrimStart(s)|..]
    ensures AllWhitespace(s[..|s| - |TrimStart(s)|])
    ensures TrimStart(s) == [] || !IsWhitespace(TrimStart(s)[0])
  {
    if |s| > 0 && IsWhitespace(s[0]) {
      var r := TrimStart(s[1..]);
      TrimStartProperties(s[1..]);
      assert s[..|s| - |r|] == [s[0]] + s[1..][..|s| - 1 - |r|];
    }
  }

  /** Drops trailing whitespace. */
  function TrimEnd(s: string): string {
    if |s| > 0 && IsWhitespace(s[|s| - 1]) then TrimEnd(s[..|s| - 1]) else s
  }

  /** What TrimEnd removes is a whitespace suffix, and what it leaves ends
      with a non-whitespace character unless it is empty. */
  lemma {:induction false} TrimEndProperties(s: string)
    ensures |TrimEnd(s)| <= |s| && TrimEnd(s) == s[..|TrimEnd(s)|]
    ensures AllWhitespace(s[|TrimEnd(s)|..])
    ensures TrimEnd(s) == [] || !IsWhitespace(TrimEnd(s)[|TrimEnd(s)| - 1])
  {
    if |s| > 0 && IsWhitespace(s[|s| - 1]) {
      var r := TrimEnd(s[..|s| - 1]);
      TrimEndProperties(s[..|s| - 1]);
      assert s[|r|..] == s[..|s| - 1][|r|..] + [s[|s| - 1]];
    }
  }

  /** String.prototype.trim. */
  function Trim(s: string): string {
    TrimEnd(TrimStart(s))
  }

  /** Trimming only shortens; it leaves nothing exactly when the text is all
      whitespace, and otherwise neither end of what is left is whitespace. */
  lemma TrimProperties(s: string)
    ensures |Trim(s)| <= |s|
    ensures Trim(s) == [] <==> AllWhitespace(s)
    ensures Trim(s) != [] ==> !IsWhitespace(Trim(s)[0]) && !IsWhitespace(Trim(s)[|Trim(s)| - 1])
  {
    var t := TrimStart(s);
    TrimStartProperties(s);
    TrimEndProperties(t);
    TrimStartEmpty(s);
    TrimEndEmpty(t);
  }

  /** The text is only whitespace, checked character by character. */
  predicate Blank(s: string) {
    |s| == 0 || (IsWhitespace(s[0]) && Blank(s[1..]))
  }

  /** `s.trim().length == 0` exactly when the text is blank. */
  lemma {:induction false} BlankIsTrimEmpty(s: string)
    ensures Blank(s) <==> AllWhitespace(s)
    ensures Blank(s) <==> Trim(s) == []
  {
    TrimProperties(s);
    if |s| > 0 {
      BlankIsTrimEmpty(s[1..]);
      assert forall i :: 1 <= i < |s| ==> s[i] == s[1..][i - 1];
    }
  }

  lemma TrimStartEmpty(s: string)
    ensures TrimStart(s) == [] <==> AllWhitespace(s)
  {
    var t := TrimStart(s);
    TrimStartProperties(s);
    if t != [] {
      assert s[|s| - |t|] == t[0];
    }
  }

  lemma TrimEndEmpty(t: string)
    ensures TrimEnd(t) == [] <==> AllWhitespace(t)
    ensures TrimEnd(t) != [] ==> TrimEnd(t)[0] == t[0]
  {
    var r := TrimEnd(t);
    TrimEndProperties(t);
    if r != [] {
      assert t[|r| - 1] == r[|r| - 1];
    } else {
      assert t[|r|..] == t;
    }
  }

  predicate IsPrefix(p: string, s: string) {
    |p| <= |s| && s[..|p|] == p
  }

  /** String.prototype.contains (Obsidian's alias of includes): `sub` occurs in `s`. */
  predicate Contains(s: string, sub: string)
    decreases |s|
  {
    IsPrefix(sub, s) || (|s| > 0 && Contains(s[1..], sub))
  }

  /** `sub` is the slice of `s` that starts at `i`. */
  predicate OccursAt(s: string, sub: string, i: int) {
    0 <= i && i + |sub| <= |s| && s[i..i + |sub|] == sub
  }

  /** `sub` occurs in `s` exactly when it is the slice of `s` at some index. */
  lemma {:induction false} ContainsIff(s: string, sub: string)
    ensures Contains(s, sub) <==> exists i :: OccursAt(s, sub, i)
    decreases |s|
  {
    if OccursAt(s, sub, 0) {
      assert IsPrefix(sub, s);
    }
    if |s| > 0 {
      ContainsIff(s[1..], sub);
      if Contains(s[1..], sub) {
        var i :| OccursAt(s[1..], sub, i);
        assert s[1..][i..i + |sub|] == s[i + 1..i + 1 + |sub|];
        assert OccursAt(s, sub, i + 1);
      }
      if exists i :: OccursAt(s, sub, i) {
        var i :| OccursAt(s, sub, i);
        if i > 0 {
          assert s[1..][i - 1..i - 1 + |sub|] == s[i..i + |sub|];
          assert OccursAt(s[1..], sub, i - 1);
        }
      }
    } else if exists i :: OccursAt(s, sub, i) {
      var i :| OccursAt(s, sub, i);
      assert i == 0;
    }
  }

  /** String.prototype.replace with a string pattern: only the first occurrence is replaced. */
  function ReplaceFirst(s: string, pattern: string, replacement: string): (r: string)
    requires |pattern| > 0
    decreases |s|
  {
    if |s| < |pattern| then s
    else if s[..|pattern|] == pattern then replacement + s[|pattern|..]
    else [s[0]] + ReplaceFirst(s[1..], pattern, replacement)
  }

  /** JavaScript's `a < b` on strings: lexicographic order of characters. */
  predicate StrLess(a: string, b: string)
    decreases |a|
  {
    if |a| == 0 then |b| > 0
    else if |b| == 0 then false
    else if a[0] != b[0] then a[0] < b[0]
    else StrLess(a[1..], b[1..])
  }

  lemma {:induction false} StrLessIrreflexive(a: string)
    ensures !StrLess(a, a)
    decreases |a|
  {
    if |a| > 0 { StrLessIrreflexive(a[1..]); }
  }

  lemma {:induction false} StrLessTransitive(a: string, b: string, c: string)
    requires StrLess(a, b) && StrLess(b, c)
    ensures StrLess(a, c)
    decreases |a|
  {
    if |a| > 0 && |b| > 0 && |c| > 0 && a[0] == b[0] && b[0] == c[0] {
      StrLessTransitive(a[1..], b[1..], c[1..]);
    }
  }

  lemma StrLessAsymmetric(a: string, b: string)
    requires StrLess(a, b)
    ensures !StrLess(b, a)
  {
    if StrLess(b, a) {
      StrLessTransitive(a, b, a);
      StrLessIrreflexive(a);
    }
  }

  lemma {:induction false} StrLessTotal(a: string, b: string)
    requires a != b
    ensures StrLess(a, b) || StrLess(b, a)
    decreases |a|
  {
    if |a| > 0 && |b| > 0 && a[0] == b[0] {
      assert a == [a[0]] + a[1..] && b == [b[0]] + b[1..];
      StrLessTotal(a[1..], b[1..]);
    }
  }

  /** The entries of `wordDelimiters` (main.ts:48): key names and one-character strings. */
  const WordDelimiters: seq<string> :=
    [" ", "Tab", "Enter", "\t", "\n", "(", ")", "[", "]", "{", "}", "<", ">", "\"",
     ",", ".", ";", ":", "/", "\\", "-", "*", "!", "?"]

  /** `wordDelimiters.contains(line[i])` for a character of the line: the
      one-character entries of the list. */
  predicate IsDelimiterChar(c: char) {
    || c == ' ' || c == '\t' || c == '\n' || c == '(' || c == ')' || c == '[' || c == ']'
    || c == '{' || c == '}' || c == '<' || c == '>' || c == '"' || c == ',' || c == '.'
    || c == ';' || c == ':' || c == '/' || c == '\\' || c == '-' || c == '*' || c == '!' || c == '?'
  }

  /** A character is a delimiter exactly when the list holds it as a
      one-character string. */
  lemma IsDelimiterCharIff(c: char)
    ensures IsDelimiterChar(c) <==> [c] in WordDelimiters
  {
  }
}
