/**
 * Character classes and string helpers with the meaning ECMAScript gives
 * them: `\d` (ASCII digits only), `String.prototype.trim`, `includes("||")`.
 */
module Text {

  /** The regular-expression class `\d` without the `u` flag: ASCII digits. */
  predicate IsDigit(c: char)
    ensures IsDigit(c) ==> !IsSpace(c)
  {
    '0' <= c <= '9'
  }

  /** ECMAScript WhiteSpace and LineTerminator code points, the set stripped by `trim`. */
  predicate IsSpace(c: char)
    ensures '!' <= c <= '~' ==> !IsSpace(c)
  {
    || c == '\t' || c == '\n' || c == '\U{000B}' || c == '\U{000C}' || c == '\r'
    || c == ' ' || c == '\U{00A0}' || c == '\U{1680}'
    || ('\U{2000}' <= c <= '\U{200A}')
    || c == '\U{2028}' || c == '\U{2029}' || c == '\U{202F}' || c == '\U{205F}'
    || c == '\U{3000}' || c == '\U{FEFF}'
  }

  /** `s` with its leading white space removed. */
  function TrimStart(s: string): (r: string)
    ensures |r| <= |s| && r == s[|s| - |r|..]
    ensures forall k :: 0 <= k < |s| - |r| ==> IsSpace(s[k])
    ensures r == [] || !IsSpace(r[0])
  {
    if s != [] && IsSpace(s[0]) then TrimStart(s[1..]) else s
  }

  /** `s` with its trailing white space removed. */
  function TrimEnd(s: string): (r: string)
    ensures |r| <= |s| && r == s[..|r|]
    ensures forall k :: |r| <= k < |s| ==> IsSpace(s[k])
    ensures r == [] || !IsSpace(r[|r| - 1])
  {
    if s != [] && IsSpace(s[|s| - 1]) then TrimEnd(s[..|s| - 1]) else s
  }

  /** `String.prototype.trim`. */
  function Trim(s: string): (r: string)
    ensures exists i, j ::
              && 0 <= i <= j <= |s| && r == s[i..j]
              && (forall k :: 0 <= k < i ==> IsSpace(s[k]))
              && (forall k :: j <= k < |s| ==> IsSpace(s[k]))
    ensures r == [] || (!IsSpace(r[0]) && !IsSpace(r[|r| - 1]))
  {
    var t := TrimStart(s);
    var r := TrimEnd(t);
    var i := |s| - |t|;
    assert r == s[i..i + |r|];
    r
  }

  /** A string whose first and last characters are not white space is its own trim. */
  lemma TrimUnchanged(s: string)
    requires s != [] && !IsSpace(s[0]) && !IsSpace(s[|s| - 1])
    ensures Trim(s) == s
  {
  }

  /** `s.includes("||")`. */
  predicate HasDoubleBar(s: string)
    ensures HasDoubleBar(s) ==> |s| >= 2 && '|' in s
  {
    |s| >= 2 && ((s[0] == '|' && s[1] == '|') || HasDoubleBar(s[1..]))
  }

  /** `HasDoubleBar` finds exactly the strings with two adjacent bars. */
  lemma {:induction false} HasDoubleBarIff(s: string)
    ensures HasDoubleBar(s) <==> exists i :: 0 <= i < |s| - 1 && s[i] == '|' && s[i + 1] == '|'
  {
    if |s| >= 2 {
      HasDoubleBarIff(s[1..]);
      if HasDoubleBar(s[1..]) {
        var i :| 0 <= i < |s| - 2 && s[1..][i] == '|' && s[1..][i + 1] == '|';
        assert s[i + 1] == '|' && s[i + 2] == '|';
      }
      if exists i :: 0 <= i < |s| - 1 && s[i] == '|' && s[i + 1] == '|' {
        var i :| 0 <= i < |s| - 1 && s[i] == '|' && s[i + 1] == '|';
        if i > 0 {
          assert s[1..][i - 1] == '|' && s[1..][i] == '|';
        }
      }
    }
  }
}
