/** The few JavaScript string built-ins the gallery helpers rely on, stated over
    Dafny strings (sequences of Unicode scalar values). */
module JsStrings {

  /** ECMAScript LineTerminator code points; the regular-expression `.` never matches one. */
  predicate IsLineTerminator(c: char) {
    c == '\n' || c == '\r' || c == '\U{2028}' || c == '\U{2029}'
  }

  /** ECMAScript WhiteSpace or LineTerminator: exactly what `String.prototype.trim` strips. */
  predicate IsJsWhitespace(c: char) {
    IsLineTerminator(c)
    || c == '\t' || c == '\U{000B}' || c == '\U{000C}' || c == ' '
    || c == '\U{00A0}' || c == '\U{FEFF}' || c == '\U{1680}'
    || ('\U{2000}' <= c <= '\U{200A}')
    || c == '\U{202F}' || c == '\U{205F}' || c == '\U{3000}'
  }

  predicate IsAsciiLetter(c: char) { 'a' <= c <= 'z' || 'A' <= c <= 'Z' }

  predicate IsAsciiDigit(c: char) { '0' <= c <= '9' }

  predicate IsAsciiAlnum(c: char) { IsAsciiLetter(c) || IsAsciiDigit(c) }

  predicate HasNoWhitespace(s: string) {
    forall i :: 0 <= i < |s| ==> !IsJsWhitespace(s[i])
  }

  /** The number of whitespace characters `s.trimStart()` drops. */
  function LeadingWhitespace(s: string): (n: nat)
    ensures n <= |s|
    ensures forall i :: 0 <= i < n ==> IsJsWhitespace(s[i])
    ensures n < |s| ==> !IsJsWhitespace(s[n])
  {
    if s != [] && IsJsWhitespace(s[0]) then 1 + LeadingWhitespace(s[1..]) else 0
  }

  /** The number of whitespace characters `s.trimEnd()` drops. */
  function TrailingWhitespace(s: string): (n: nat)
    ensures n <= |s|
    ensures forall i :: |s| - n <= i < |s| ==> IsJsWhitespace(s[i])
    ensures n < |s| ==> !IsJsWhitespace(s[|s| - 1 - n])
  {
    if s != [] && IsJsWhitespace(s[|s| - 1]) then 1 + TrailingWhitespace(s[..|s| - 1]) else 0
  }

  /** `s.trimStart()`: the suffix left after every leading white-space character. */
  function TrimStart(s: string): string {
    s[LeadingWhitespace(s)..]
  }

  /** `s.trimEnd()`: the prefix left before every trailing white-space character. */
  function TrimEnd(s: string): string {
    s[..|s| - TrailingWhitespace(s)]
  }

  /** `s.trim()`: drops leading and trailing whitespace. */
  function Trim(s: string): string {
    TrimEnd(TrimStart(s))
  }

  /** What `trim` keeps neither starts nor ends with whitespace. */
  lemma TrimmedEndsInText(s: string)
    ensures Trim(s) == [] || (!IsJsWhitespace(Trim(s)[0]) && !IsJsWhitespace(Trim(s)[|Trim(s)| - 1]))
  {
    var t := TrimStart(s);
    if Trim(s) != [] {
      assert Trim(s)[0] == t[0];
    }
  }

  /** `trim` is idempotent. */
  lemma TrimIdempotent(s: string)
    ensures Trim(Trim(s)) == Trim(s)
  {
    TrimmedEndsInText(s);
    TrimKeepsTrimmed(Trim(s));
  }

  /** `trim` in full: it keeps one contiguous piece of its input, drops only white space in
      front of it and behind it, and the piece neither starts nor ends with white space. */
  lemma TrimSpec(s: string)
    ensures var k, t := LeadingWhitespace(s), Trim(s);
      k + |t| <= |s| && t == s[k..k + |t|]
      && (forall i :: 0 <= i < k ==> IsJsWhitespace(s[i]))
      && (forall i :: k + |t| <= i < |s| ==> IsJsWhitespace(s[i]))
      && (t == [] || (!IsJsWhitespace(t[0]) && !IsJsWhitespace(t[|t| - 1])))
  {
    var k := LeadingWhitespace(s);
    var u := TrimStart(s);
    TrimIsSlice(s);
    TrimmedEndsInText(s);
    forall i | k + |Trim(s)| <= i < |s| ensures IsJsWhitespace(s[i]) {
      assert s[i] == u[i - k];
    }
  }

  /** What `trim` keeps is a contiguous piece of its input. */
  lemma TrimIsSlice(s: string)
    ensures var k := LeadingWhitespace(s); k + |Trim(s)| <= |s| && Trim(s) == s[k..k + |Trim(s)|]
  {
    var k := LeadingWhitespace(s);
    var t := s[k..];
    assert Trim(s) == t[..|t| - TrailingWhitespace(t)];
  }

  lemma {:induction false} TrimStartIsBlankIffAllWhitespace(s: string)
    ensures TrimStart(s) == [] <==> forall i :: 0 <= i < |s| ==> IsJsWhitespace(s[i])
  {
    if s != [] && IsJsWhitespace(s[0]) {
      TrimStartIsBlankIffAllWhitespace(s[1..]);
      assert forall i :: 1 <= i < |s| ==> s[i] == s[1..][i - 1];
    }
  }

  lemma {:induction false} TrailingWhitespaceStopsAtText(t: string)
    requires t != [] && !IsJsWhitespace(t[0])
    ensures TrailingWhitespace(t) < |t|
  {
    if IsJsWhitespace(t[|t| - 1]) {
      TrailingWhitespaceStopsAtText(t[..|t| - 1]);
    }
  }

  /** Trimming gives the empty string exactly when the input is all whitespace. */
  lemma TrimIsBlankIffAllWhitespace(s: string)
    ensures Trim(s) == [] <==> forall i :: 0 <= i < |s| ==> IsJsWhitespace(s[i])
  {
    TrimStartIsBlankIffAllWhitespace(s);
    var t := TrimStart(s);
    if t != [] {
      TrailingWhitespaceStopsAtText(t);
    }
  }

  lemma {:induction false} LeadingWhitespaceBeforeText(a: string, b: string)
    requires b == [] || !IsJsWhitespace(b[0])
    ensures LeadingWhitespace(a + b) == LeadingWhitespace(a)
  {
    if a != [] {
      assert (a + b)[1..] == a[1..] + b;
      LeadingWhitespaceBeforeText(a[1..], b);
    } else {
      assert a + b == b;
    }
  }

  lemma {:induction false} TrailingWhitespaceAfterText(a: string, b: string)
    requires b != [] && !IsJsWhitespace(b[0])
    ensures TrailingWhitespace(a + b) == TrailingWhitespace(b)
  {
    if |b| > 1 {
      assert (a + b)[..|a + b| - 1] == a + b[..|b| - 1];
      TrailingWhitespaceAfterText(a, b[..|b| - 1]);
    }
  }

  /** Leading whitespace before a non-blank character is all `trimStart` removes. */
  lemma TrimStartBeforeText(a: string, b: string)
    requires b != [] && !IsJsWhitespace(b[0])
    ensures TrimStart(a + b) == TrimStart(a) + b
  {
    LeadingWhitespaceBeforeText(a, b);
    assert (a + b)[LeadingWhitespace(a)..] == a[LeadingWhitespace(a)..] + b;
  }

  lemma TakeOfAppend(x: string, y: string, k: nat)
    requires k <= |y|
    ensures (x + y)[..|x| + k] == x + y[..k]
  {
  }

  /** Trimming the end of a string that starts with a non-blank character keeps that character. */
  lemma TrimEndKeepsText(b: string)
    requires b != [] && !IsJsWhitespace(b[0])
    ensures TrimEnd(b) != [] && TrimEnd(b)[0] == b[0]
  {
    TrailingWhitespaceStopsAtText(b);
  }

  /** Trimming a string whose second part starts with a non-blank character trims the
      first part at its start only and the second part at its end only. */
  lemma TrimAroundText(a: string, b: string)
    requires b != [] && !IsJsWhitespace(b[0])
    ensures Trim(a + b) == TrimStart(a) + TrimEnd(b)
  {
    var head := TrimStart(a);
    TrimStartBeforeText(a, b);
    var m := TrailingWhitespace(b);
    TrailingWhitespaceAfterText(head, b);
    TrailingWhitespaceStopsAtText(b);
    calc {
      Trim(a + b);
      TrimEnd(head + b);
      (head + b)[..|head| + (|b| - m)];
      { TakeOfAppend(head, b, |b| - m); }
      head + b[..|b| - m];
    }
  }

  /** A string that neither starts nor ends with whitespace is its own trim. */
  lemma TrimKeepsTrimmed(s: string)
    requires s == [] || (!IsJsWhitespace(s[0]) && !IsJsWhitespace(s[|s| - 1]))
    ensures Trim(s) == s
  {
  }

  /** `s.lastIndexOf(c)`: the index of the last occurrence, or -1. */
  function LastIndexOf(s: string, c: char): (k: int)
    ensures -1 <= k < |s|
    ensures k >= 0 ==> s[k] == c
    ensures forall i :: k < i < |s| ==> s[i] != c
  {
    if s == [] then -1
    else if s[|s| - 1] == c then |s| - 1
    else LastIndexOf(s[..|s| - 1], c)
  }

  /** `s.indexOf(c)`: the index of the first occurrence, or -1. */
  function IndexOf(s: string, c: char): (k: int)
    ensures -1 <= k < |s|
    ensures k >= 0 ==> s[k] == c
    ensures forall i :: 0 <= i < |s| && (k < 0 || i < k) ==> s[i] != c
  {
    if s == [] then -1
    else if s[0] == c then 0
    else
      var k := IndexOf(s[1..], c);
      if k < 0 then -1 else k + 1
  }

  predicate StartsWith(s: string, prefix: string) {
    |prefix| <= |s| && s[..|prefix|] == prefix
  }

  function AsciiLowerChar(c: char): char {
    if 'A' <= c <= 'Z' then (c as int + 32) as char else c
  }

  /** `s.toLowerCase()` restricted to ASCII letters. */
  function AsciiLower(s: string): (r: string)
    ensures |r| == |s|
    ensures forall i :: 0 <= i < |s| ==> r[i] == AsciiLowerChar(s[i])
  {
    if s == [] then [] else [AsciiLowerChar(s[0])] + AsciiLower(s[1..])
  }
}
