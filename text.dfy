/**
 * The text guard of the task list: JavaScript's `String.prototype.trim`,
 * used only to decide whether an input holds anything but white space.
 */
module Text {

  /**
   * The characters `trim` removes: ECMAScript's WhiteSpace (tab, vertical tab,
   * form feed, space, no-break space, zero-width no-break space and the other
   * Unicode "space separator" characters) and LineTerminator (line feed,
   * carriage return, line and paragraph separators).
   */
  predicate IsWhitespace(c: char)
  {
    c == '\t' || c == '\U{000B}' || c == '\U{000C}' || c == ' ' ||
    c == '\U{00A0}' || c == '\U{FEFF}' || c == '\U{1680}' ||
    ('\U{2000}' <= c <= '\U{200A}') || c == '\U{202F}' || c == '\U{205F}' ||
    c == '\U{3000}' ||
    c == '\n' || c == '\r' || c == '\U{2028}' || c == '\U{2029}'
  }

  /** Every character of `s` is white space (vacuously so for ""). */
  predicate Blank(s: string)
  {
    forall i :: 0 <= i < |s| ==> IsWhitespace(s[i])
  }

  /** `s` without its leading white space: a suffix of `s` that was cut only at white space. */
  function TrimStart(s: string): (r: string)
    ensures |r| <= |s| && r == s[|s| - |r|..]
    ensures forall i :: 0 <= i < |s| - |r| ==> IsWhitespace(s[i])
    ensures r == [] || !IsWhitespace(r[0])
  {
    if s != [] && IsWhitespace(s[0]) then TrimStart(s[1..]) else s
  }

  /** `s` without its trailing white space: a prefix of `s` that was cut only at white space. */
  function TrimEnd(s: string): (r: string)
    ensures |r| <= |s| && r == s[..|r|]
    ensures forall i :: |r| <= i < |s| ==> IsWhitespace(s[i])
    ensures r == [] || !IsWhitespace(r[|r| - 1])
  {
    if s != [] && IsWhitespace(s[|s| - 1]) then TrimEnd(s[..|s| - 1]) else s
  }

  /**
   * `s.trim()`: the input with its leading and trailing white space cut off;
   * what is left neither starts nor ends with white space.
   */
  function Trim(s: string): (r: string)
    ensures |r| <= |s|
    ensures r == [] || (!IsWhitespace(r[0]) && !IsWhitespace(r[|r| - 1]))
  {
    var m := TrimStart(s);
    var r := TrimEnd(m);
    assert r != [] ==> r[0] == m[0];
    r
  }

  /** How many white-space characters `trim` cuts from the front of `s`. */
  function Lead(s: string): nat
  {
    |s| - |TrimStart(s)|
  }

  /** `trim` keeps an infix of the input and everything outside it is white space. */
  lemma TrimInfix(s: string)
    ensures Lead(s) + |Trim(s)| <= |s| && Trim(s) == s[Lead(s)..Lead(s) + |Trim(s)|]
    ensures forall i :: 0 <= i < Lead(s) ==> IsWhitespace(s[i])
    ensures forall i :: Lead(s) + |Trim(s)| <= i < |s| ==> IsWhitespace(s[i])
  {
    var m := TrimStart(s);
    CutBothEnds(s, m, TrimEnd(m));
  }

  /** Cutting a white-space prefix and then a white-space suffix leaves an infix. */
  lemma CutBothEnds(s: string, m: string, r: string)
    requires |m| <= |s| && m == s[|s| - |m|..]
    requires |r| <= |m| && r == m[..|r|]
    requires forall i :: |r| <= i < |m| ==> IsWhitespace(m[i])
    ensures var k := |s| - |m|;
            r == s[k..k + |r|] && forall i :: k + |r| <= i < |s| ==> IsWhitespace(s[i])
  {
    var k := |s| - |m|;
    forall i | k + |r| <= i < |s| ensures IsWhitespace(s[i]) {
      assert s[i] == m[i - k];
    }
  }

  /** JavaScript truthiness of `s.trim()`: the trimmed string is not empty. */
  predicate HasText(s: string): (b: bool)
    ensures b ==> exists i :: 0 <= i < |s| && !IsWhitespace(s[i])
  {
    Trim(s) != []
  }

  /** The guard fails exactly on the empty and the whitespace-only inputs. */
  lemma HasTextIffNotBlank(s: string)
    ensures HasText(s) <==> !Blank(s)
  {
    TrimInfix(s);
    var r, k := Trim(s), Lead(s);
    if r != [] {
      assert s[k] == r[0];
    }
  }
}
