/** String helpers shared by the Java and TypeScript parts of the model:
    trimming (with the two languages' notions of white space), ASCII case
    mapping and substring search. */
module Text {

  /** `String.trim()` in Java strips every character up to U+0020. */
  predicate IsJavaSpace(c: char) {
    c <= ' '
  }

  /** `String.prototype.trim()` in JavaScript strips WhiteSpace (tab, vertical
      tab, form feed, space, no-break space, byte order mark and the other
      space separators) and LineTerminator characters. */
  predicate IsJsSpace(c: char) {
    c == '\t' || c == '\n' || c == '\U{000B}' || c == '\U{000C}' || c == '\r' || c == ' '
    || c == '\U{00A0}' || c == '\U{1680}' || ('\U{2000}' <= c <= '\U{200A}')
    || c == '\U{2028}' || c == '\U{2029}' || c == '\U{202F}' || c == '\U{205F}'
    || c == '\U{3000}' || c == '\U{FEFF}'
  }

  /** Every character of `s` is white space in the sense of `isSpace`. */
  predicate IsBlank(s: string, isSpace: char -> bool) {
    forall i :: 0 <= i < |s| ==> isSpace(s[i])
  }

  /** The number of white-space characters at the start of `s`. */
  function LeadingSpaces(s: string, isSpace: char -> bool): (k: nat)
    ensures k <= |s|
    ensures forall i :: 0 <= i < k ==> isSpace(s[i])
    ensures k < |s| ==> !isSpace(s[k])
  {
    if |s| > 0 && isSpace(s[0]) then 1 + LeadingSpaces(s[1..], isSpace) else 0
  }

  /** The number of white-space characters at the end of `s`. */
  function TrailingSpaces(s: string, isSpace: char -> bool): (k: nat)
    ensures k <= |s|
    ensures forall i :: |s| - k <= i < |s| ==> isSpace(s[i])
    ensures k < |s| ==> !isSpace(s[|s| - 1 - k])
  {
    if |s| > 0 && isSpace(s[|s| - 1]) then 1 + TrailingSpaces(s[..|s| - 1], isSpace) else 0
  }

  /** `s` without its leading and trailing white space. */
  function Trim(s: string, isSpace: char -> bool): (r: string)
    ensures |r| <= |s|
    ensures r == [] || (!isSpace(r[0]) && !isSpace(r[|r| - 1]))
    ensures r == [] <==> IsBlank(s, isSpace)
  {
    var lead := LeadingSpaces(s, isSpace);
    if lead == |s| then []
    else
      var trail := TrailingSpaces(s, isSpace);
      assert trail < |s| - lead;
      assert !IsBlank(s, isSpace) by { assert !isSpace(s[lead]); }
      s[lead..|s| - trail]
  }

  function JavaTrim(s: string): string {
    Trim(s, IsJavaSpace)
  }

  function JsTrim(s: string): string {
    Trim(s, IsJsSpace)
  }

  /** Case mapping restricted to ASCII: 'A'..'Z' become 'a'..'z'. */
  function ToLowerChar(c: char): char {
    if 'A' <= c <= 'Z' then (c as int - 'A' as int + 'a' as int) as char else c
  }

  function ToLower(s: string): (r: string)
    ensures |r| == |s|
    ensures forall i :: 0 <= i < |s| ==> r[i] == ToLowerChar(s[i])
  {
    seq(|s|, i requires 0 <= i < |s| => ToLowerChar(s[i]))
  }

  /** Lower-casing twice is lower-casing once. */
  lemma ToLowerIdempotent(s: string)
    ensures ToLower(ToLower(s)) == ToLower(s)
  {
    forall i | 0 <= i < |s| ensures ToLower(ToLower(s))[i] == ToLower(s)[i] {
      var c := s[i];
      assert ToLowerChar(ToLowerChar(c)) == ToLowerChar(c);
    }
  }

  /** `s.contains(t)` / `s.includes(t)`: `t` occurs in `s` as a contiguous piece. */
  predicate Contains(s: string, t: string) {
    exists i :: 0 <= i <= |s| - |t| && OccursAt(s, t, i)
  }

  /** `t` occurs in `s` starting at index `i`. */
  predicate OccursAt(s: string, t: string, i: int) {
    0 <= i <= |s| - |t| && s[i..i + |t|] == t
  }
}
