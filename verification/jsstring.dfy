/**
 The two pieces of JavaScript string semantics the validators depend on:
 which characters are line terminators (the regular-expression `.` matches
 every character except these) and which characters `String.prototype.trim`
 removes (white space and line terminators, section 22.1.3.32 of ECMA-262).
 */
module JsString {

  /** LF, CR, LINE SEPARATOR and PARAGRAPH SEPARATOR. */
  predicate IsLineTerminator(c: char) {
    c == '\n' || c == '\r' || c == '\U{2028}' || c == '\U{2029}'
  }

  /**
   The WhiteSpace production: TAB, VT, FF, SPACE, NO-BREAK SPACE, ZERO WIDTH
   NO-BREAK SPACE and the space separators of Unicode category Zs.
   */
  predicate IsWhiteSpace(c: char) {
    || c == '\t' || c == '\U{000B}' || c == '\U{000C}' || c == ' '
    || c == '\U{00A0}' || c == '\U{FEFF}' || c == '\U{1680}'
    || ('\U{2000}' <= c <= '\U{200A}')
    || c == '\U{202F}' || c == '\U{205F}' || c == '\U{3000}'
  }

  /** What `trim` strips from both ends of a string. */
  predicate IsTrimmable(c: char) {
    IsWhiteSpace(c) || IsLineTerminator(c)
  }

  predicate AllTrimmable(s: string) {
    forall i :: 0 <= i < |s| ==> IsTrimmable(s[i])
  }

  /** Neither end of `s` is a trimmable character. */
  predicate IsTrimmed(s: string) {
    s == [] || (!IsTrimmable(s[0]) && !IsTrimmable(s[|s|-1]))
  }

  /** Drops the longest trimmable prefix. */
  function TrimStart(s: string): (r: string)
    ensures |r| <= |s| && r == s[|s|-|r|..]
    ensures AllTrimmable(s[..|s|-|r|])
    ensures r == [] || !IsTrimmable(r[0])
  {
    if s != [] && IsTrimmable(s[0]) then
      var r := TrimStart(s[1..]);
      assert s[1..][|s|-1-|r|..] == s[|s|-|r|..];
      assert forall i :: 1 <= i < |s|-|r| ==> s[i] == s[1..][..|s|-1-|r|][i-1];
      r
    else s
  }

  /** Drops the longest trimmable suffix. */
  function TrimEnd(s: string): (r: string)
    ensures |r| <= |s| && r == s[..|r|]
    ensures AllTrimmable(s[|r|..])
    ensures r == [] || !IsTrimmable(r[|r|-1])
  {
    if s != [] && IsTrimmable(s[|s|-1]) then
      var r := TrimEnd(s[..|s|-1]);
      assert s[..|s|-1][..|r|] == s[..|r|];
      assert forall i :: |r| <= i < |s|-1 ==> s[i] == s[..|s|-1][|r|..][i-|r|];
      r
    else s
  }

  /**
   `String.prototype.trim`: the result is a slice `s[k..k+|r|]` whose
   surroundings are entirely trimmable and whose own ends are not, so it is
   the one and only such slice.
   */
  function Trim(s: string): (r: string)
    ensures IsTrimmed(r)
    ensures exists k :: TrimmedAt(s, k, r)
  {
    var t := TrimStart(s);
    var r := TrimEnd(t);
    TrimmedSlice(s, t, r);
    r
  }

  /** A trimmable prefix cut from `s`, then a trimmable suffix cut from what is left, leaves a trimmed slice. */
  lemma TrimmedSlice(s: string, t: string, r: string)
    requires |t| <= |s| && t == s[|s|-|t|..] && AllTrimmable(s[..|s|-|t|])
    requires |r| <= |t| && r == t[..|r|] && AllTrimmable(t[|r|..])
    ensures TrimmedAt(s, |s| - |t|, r)
  {
    var k := |s| - |t|;
    assert s[k..k+|r|] == r;
    assert s[k+|r|..] == t[|r|..];
  }

  /** `r` sits at offset `k` of `s` with nothing but trimmable characters around it. */
  ghost predicate TrimmedAt(s: string, k: int, r: string) {
    && 0 <= k && k + |r| <= |s|
    && s[k..k+|r|] == r
    && AllTrimmable(s[..k])
    && AllTrimmable(s[k+|r|..])
  }

  /** Trimming is idempotent. */
  lemma TrimIdempotent(s: string)
    ensures Trim(Trim(s)) == Trim(s)
  {
    var r := Trim(s);
    if r != [] {
      assert TrimStart(r) == r;
      assert TrimEnd(r) == r;
    }
  }

  /** The characterisation of `Trim` determines its result. */
  lemma TrimUnique(s: string, k: int, r: string)
    requires TrimmedAt(s, k, r) && IsTrimmed(r)
    ensures Trim(s) == r
  {
    var t := Trim(s);
    var k' :| TrimmedAt(s, k', t);
    SameTrimmedSlice(s, k, r, k', t);
  }

  lemma SameTrimmedSlice(s: string, k: int, r: string, k': int, t: string)
    requires TrimmedAt(s, k, r) && IsTrimmed(r)
    requires TrimmedAt(s, k', t) && IsTrimmed(t)
    ensures r == t
  {
    if r != [] && t != [] {
      assert k == k';
      assert |r| == |t|;
    }
  }
}
