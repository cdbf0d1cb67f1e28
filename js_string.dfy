/** The few JavaScript string and value primitives the chat and profile code relies on:
    `null`/`undefined` as an Option, truthiness of an optional string, `String.prototype.trim`
    and `String.prototype.startsWith`. */
module JsString {

  /** A value that may be `null` or `undefined` in the program. */
  datatype Option<T> = None | Some(value: T)

  /** JavaScript truthiness of a value that is a string or `null`: the empty string is falsy. */
  predicate Truthy(s: Option<string>) {
    s.Some? && s.value != ""
  }

  /** `a || b` on values that are strings or `null`. */
  function Or(a: Option<string>, b: Option<string>): (r: Option<string>)
    ensures Truthy(a) ==> r == a
    ensures !Truthy(a) ==> r == b
  {
    if Truthy(a) then a else b
  }

  /** The characters `trim` removes: ECMAScript WhiteSpace (TAB, VT, FF, SPACE, NBSP, ZWNBSP and
      every Space_Separator) and LineTerminator (LF, CR, LS, PS). */
  predicate IsSpace(c: char) {
    || c == '\t' || c == '\n' || c == '\U{000B}' || c == '\U{000C}' || c == '\r' || c == ' '
    || c == '\U{00A0}' || c == '\U{1680}' || ('\U{2000}' <= c <= '\U{200A}')
    || c == '\U{2028}' || c == '\U{2029}' || c == '\U{202F}' || c == '\U{205F}'
    || c == '\U{3000}' || c == '\U{FEFF}'
  }

  predicate AllSpace(s: string) {
    forall i :: 0 <= i < |s| ==> IsSpace(s[i])
  }

  /** Drops the leading white space: the result is the suffix of `s` starting at its first
      non-space character. */
  function TrimStart(s: string): (r: string)
    ensures |r| <= |s| && r == s[|s| - |r|..]
    ensures AllSpace(s[..|s| - |r|])
    ensures r == [] || !IsSpace(r[0])
  {
    if |s| > 0 && IsSpace(s[0]) then
      var r := TrimStart(s[1..]);
      assert s[1..][..|s| - 1 - |r|] == s[1..|s| - |r|];
      r
    else
      s
  }

  /** Drops the trailing white space: the result is the prefix of `s` ending at its last
      non-space character. */
  function TrimEnd(s: string): (r: string)
    ensures |r| <= |s| && r == s[..|r|]
    ensures AllSpace(s[|r|..])
    ensures r == [] || !IsSpace(r[|r| - 1])
  {
    if |s| > 0 && IsSpace(s[|s| - 1]) then
      var r := TrimEnd(s[..|s| - 1]);
      assert s[|r|..] == s[..|s| - 1][|r|..] + [s[|s| - 1]];
      r
    else
      s
  }

  /** `s.trim()`: `s` with white space removed from both ends. The result is empty exactly when
      `s` is all white space; otherwise it begins and ends with a non-space character. */
  function Trim(s: string): (r: string)
    ensures |r| <= |s|
    ensures r == [] <==> AllSpace(s)
    ensures r != [] ==> !IsSpace(r[0]) && !IsSpace(r[|r| - 1])
  {
    var t := TrimStart(s);
    var r := TrimEnd(t);
    TrimAround(s, t, r, |s| - |t|);
    r
  }

  /** Nothing but white space is removed: `s` is `Trim(s)` with white space on both sides. */
  lemma TrimRemovesOnlySpace(s: string)
    ensures exists lo :: 0 <= lo && lo + |Trim(s)| <= |s| && s[lo..lo + |Trim(s)|] == Trim(s)
                         && AllSpace(s[..lo]) && AllSpace(s[lo + |Trim(s)|..])
  {
    var t := TrimStart(s);
    var r := TrimEnd(t);
    var lo := |s| - |t|;
    TrimAround(s, t, r, lo);
    assert r == Trim(s);
    assert s[lo..lo + |r|] == r && AllSpace(s[..lo]) && AllSpace(s[lo + |r|..]);
  }

  /** What trimming both ends means, from what trimming each end means. */
  lemma TrimAround(s: string, t: string, r: string, lo: nat)
    requires lo <= |s| && t == s[lo..] && AllSpace(s[..lo]) && (t == [] || !IsSpace(t[0]))
    requires |r| <= |t| && r == t[..|r|] && AllSpace(t[|r|..])
    ensures s[lo..lo + |r|] == r && AllSpace(s[lo + |r|..])
    ensures r == [] <==> AllSpace(s)
    ensures r != [] ==> !IsSpace(r[0])
  {
    assert s[lo..lo + |r|] == r;
    assert s[lo + |r|..] == t[|r|..];
    if r == [] {
      assert s == s[..lo] + t;
      SpaceConcat(s[..lo], t);
    } else {
      assert s[lo] == r[0];
    }
  }

  lemma SpaceConcat(a: string, b: string)
    requires AllSpace(a) && AllSpace(b)
    ensures AllSpace(a + b)
  {
    forall i | 0 <= i < |a + b| ensures IsSpace((a + b)[i]) {
      if i < |a| { assert (a + b)[i] == a[i]; } else { assert (a + b)[i] == b[i - |a|]; }
    }
  }

  /** `s.startsWith(p)`. */
  predicate StartsWith(s: string, p: string) {
    |p| <= |s| && s[..|p|] == p
  }
}
