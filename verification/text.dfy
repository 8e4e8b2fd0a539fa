/** White space as the two languages of the system see it, and trimming
    by it: JavaScript's `parseInt` skips leading white space, Python's
    `strip()` removes it at both ends. */
module Text {

  /** Whose notion of white space applies. */
  datatype Whitespace = Js | Py

  /** Python's `str.isspace` or JavaScript's white space, by `w`. */
  predicate IsSpace(w: Whitespace, c: char) {
    if w == Js then IsJsSpace(c) else IsPySpace(c)
  }

  /** ECMAScript WhiteSpace and LineTerminator code points, which `parseInt` skips. */
  predicate IsJsSpace(c: char) {
    || c == '\t' || c == '\n' || c == '\U{000B}' || c == '\U{000C}' || c == '\r'
    || c == ' ' || c == '\U{00A0}' || c == '\U{1680}' || ('\U{2000}' <= c <= '\U{200A}')
    || c == '\U{2028}' || c == '\U{2029}' || c == '\U{202F}' || c == '\U{205F}'
    || c == '\U{3000}' || c == '\U{FEFF}'
  }

  /** The characters for which Python's `str.isspace` holds, which `strip()` removes. */
  predicate IsPySpace(c: char) {
    || ('\t' <= c <= '\r') || ('\U{1C}' <= c <= ' ') || c == '\U{85}' || c == '\U{A0}'
    || c == '\U{1680}' || ('\U{2000}' <= c <= '\U{200A}') || c == '\U{2028}' || c == '\U{2029}'
    || c == '\U{202F}' || c == '\U{205F}' || c == '\U{3000}'
  }

  /** `s` without its leading white space. */
  function TrimLeft(w: Whitespace, s: string): (t: string)
    ensures |t| <= |s|
    decreases |s|
  {
    if |s| > 0 && IsSpace(w, s[0]) then TrimLeft(w, s[1..]) else s
  }

  /** `s` without its trailing white space. */
  function TrimRight(w: Whitespace, s: string): (t: string)
    ensures |t| <= |s|
    decreases |s|
  {
    if |s| > 0 && IsSpace(w, s[|s| - 1]) then TrimRight(w, s[..|s| - 1]) else s
  }

  /** Trimming on the left leaves the longest suffix that does not start
      with white space: everything removed is white space. */
  lemma {:induction false} TrimLeftSpec(w: Whitespace, s: string)
    ensures var t := TrimLeft(w, s);
      && t == s[|s| - |t|..]
      && (forall k :: 0 <= k < |s| - |t| ==> IsSpace(w, s[k]))
      && (|t| == 0 || !IsSpace(w, t[0]))
    decreases |s|
  {
    if |s| > 0 && IsSpace(w, s[0]) {
      TrimLeftSpec(w, s[1..]);
      var t := TrimLeft(w, s);
      assert t == TrimLeft(w, s[1..]);
      forall k | 1 <= k < |s| - |t| ensures IsSpace(w, s[k]) {
        assert s[k] == s[1..][k - 1];
      }
    }
  }

  /** Trimming on the right leaves the longest prefix that does not end
      with white space: everything removed is white space. */
  lemma {:induction false} TrimRightSpec(w: Whitespace, s: string)
    ensures var t := TrimRight(w, s);
      && t == s[..|t|]
      && (forall k :: |t| <= k < |s| ==> IsSpace(w, s[k]))
      && (|t| == 0 || !IsSpace(w, t[|t| - 1]))
    decreases |s|
  {
    if |s| > 0 && IsSpace(w, s[|s| - 1]) {
      var init := s[..|s| - 1];
      TrimRightSpec(w, init);
      var t := TrimRight(w, s);
      assert t == TrimRight(w, init);
      forall k | |t| <= k < |s| - 1 ensures IsSpace(w, s[k]) {
        assert s[k] == init[k];
      }
    }
  }
}
