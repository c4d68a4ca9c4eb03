/** `String.prototype.trim` and the blank-line test built on it. */
module JsString {
  import opened Tally

  /** The WhiteSpace and LineTerminator code points of ECMAScript, which `trim` removes. */
  predicate IsJsSpace(c: char)
  {
    c == '\t' || c == '\n' || c == '\U{000B}' || c == '\U{000C}' || c == '\r' || c == ' '
    || c == '\U{00A0}' || c == '\U{1680}' || ('\U{2000}' <= c <= '\U{200A}')
    || c == '\U{2028}' || c == '\U{2029}' || c == '\U{202F}' || c == '\U{205F}'
    || c == '\U{3000}' || c == '\U{FEFF}'
  }

  /** Every character of s is white space (true of the empty string). */
  predicate Blank(s: string)
  {
    forall i :: 0 <= i < |s| ==> IsJsSpace(s[i])
  }

  /** The number of white-space characters s starts with. */
  function LeadingSpaces(s: string): (n: nat)
    ensures n <= |s|
    ensures forall i :: 0 <= i < n ==> IsJsSpace(s[i])
    ensures n < |s| ==> !IsJsSpace(s[n])
  {
    if s != [] && IsJsSpace(s[0]) then 1 + LeadingSpaces(s[1..]) else 0
  }

  /** The number of white-space characters s ends with. */
  function TrailingSpaces(s: string): (n: nat)
    ensures n <= |s|
    ensures forall i :: |s| - n <= i < |s| ==> IsJsSpace(s[i])
    ensures n < |s| ==> !IsJsSpace(s[|s| - 1 - n])
  {
    if s != [] && IsJsSpace(s[|s| - 1]) then 1 + TrailingSpaces(s[..|s| - 1]) else 0
  }

  /** `s.trim()`: s without its leading and trailing white space. */
  function Trim(s: string): (r: string)
    ensures |r| <= |s|
    ensures r == [] <==> Blank(s)
    ensures r != [] ==> !IsJsSpace(r[0]) && !IsJsSpace(r[|r| - 1])
    ensures LeadingSpaces(s) + |r| <= |s|
    ensures forall k :: 0 <= k < |r| ==> r[k] == s[LeadingSpaces(s) + k]
    ensures forall k :: LeadingSpaces(s) + |r| <= k < |s| ==> IsJsSpace(s[k])
  {
    var i := LeadingSpaces(s);
    if i == |s| then [] else s[i..|s| - TrailingSpaces(s)]
  }

  /** A string without white space is its own trim. */
  lemma TrimOfSpaceFree(s: string)
    requires forall i :: 0 <= i < |s| ==> !IsJsSpace(s[i])
    ensures Trim(s) == s
  {
    if s != [] {
      assert LeadingSpaces(s) == 0 && TrailingSpaces(s) == 0;
    }
  }

  /** The filter of the line count: something is left after trimming. */
  predicate HasText(line: string)
  {
    |Trim(line)| > 0
  }

  /** `lines.filter((l) => l.trim().length > 0).length`. */
  function NonBlankCount(lines: seq<string>): (n: nat)
    ensures n <= |lines|
  {
    CountWhere(lines, HasText)
  }

  /** A line has text exactly when it is not all white space. */
  lemma HasTextIffNotBlank(line: string)
    ensures HasText(line) <==> !Blank(line)
  {
  }

  /** The lines that count are exactly those holding a character that is not white space. */
  lemma NonBlankCountCountsNonBlank(lines: seq<string>)
    ensures NonBlankCount(lines) == |lines| <==> forall i :: 0 <= i < |lines| ==> !Blank(lines[i])
    ensures NonBlankCount(lines) == 0 <==> forall i :: 0 <= i < |lines| ==> Blank(lines[i])
  {
    CountWhereAll(lines, HasText);
    CountWhereNone(lines, HasText);
    forall i | 0 <= i < |lines|
      ensures HasText(lines[i]) <==> !Blank(lines[i])
    {
      HasTextIffNotBlank(lines[i]);
    }
  }
}
