/** `String.prototype.trim` and the "blank text" test the components use. */
module Text {

  /** The characters `trim` removes: ECMAScript's WhiteSpace (TAB, VT, FF,
      ZWNBSP and the Unicode space separators) and LineTerminator (LF, CR,
      LS, PS). */
  predicate IsSpace(c: char) {
    || c == ' ' || c == '\t' || c == '\n' || c == '\r'
    || c == '\U{000B}' || c == '\U{000C}' || c == '\U{00A0}' || c == '\U{1680}'
    || ('\U{2000}' <= c <= '\U{200A}')
    || c == '\U{2028}' || c == '\U{2029}' || c == '\U{202F}' || c == '\U{205F}'
    || c == '\U{3000}' || c == '\U{FEFF}'
  }

  /** Every character of `s` is white space (vacuously so for ""). */
  predicate IsBlank(s: string) {
    forall i :: 0 <= i < |s| ==> IsSpace(s[i])
  }

  /** `s` carries no white space at either end. */
  predicate IsTrimmed(s: string) {
    s == [] || (!IsSpace(s[0]) && !IsSpace(s[|s| - 1]))
  }

  /** Drops the leading white space: what remains is a suffix of `s` that
      does not start with white space, and everything dropped is white space. */
  function TrimStart(s: string): (r: string)
    ensures |r| <= |s| && r == s[|s| - |r|..]
    ensures IsBlank(s[..|s| - |r|])
    ensures r == [] || !IsSpace(r[0])
  {
    if |s| > 0 && IsSpace(s[0]) then
      var r := TrimStart(s[1..]);
      assert s[..|s| - |r|] == [s[0]] + s[1..][..|s| - 1 - |r|];
      r
    else s
  }

  /** Drops the trailing white space: what remains is a prefix of `s` that
      does not end with white space, and everything dropped is white space. */
  function TrimEnd(s: string): (r: string)
    ensures |r| <= |s| && r == s[..|r|]
    ensures IsBlank(s[|r|..])
    ensures r == [] || !IsSpace(r[|r| - 1])
  {
    if |s| > 0 && IsSpace(s[|s| - 1]) then
      var r := TrimEnd(s[..|s| - 1]);
      assert s[|r|..] == s[..|s| - 1][|r|..] + [s[|s| - 1]];
      r
    else s
  }

  /** `s.trim()`: `s` with its leading and trailing white space dropped, so
      the result has no white space at either end, and it is empty exactly
      when `s` is blank. */
  function Trim(s: string): (r: string)
    ensures IsTrimmed(r)
    ensures |r| <= |s|
    ensures |r| == 0 <==> IsBlank(s)
    ensures exists k :: Strips(s, k, r)
  {
    var t := TrimStart(s);
    var r := TrimEnd(t);
    assert r != [] ==> r[0] == t[0];
    HeadTailSlice(s, t, r);
    HeadTailBlank(s, t, r);
    r
  }

  /** `r` is `s` with the blank `s[..k]` dropped in front and a blank rest
      dropped behind. */
  predicate Strips(s: string, k: int, r: string) {
    0 <= k <= |s| - |r| && r == s[k..k + |r|] && IsBlank(s[..k]) && IsBlank(s[k + |r|..])
  }

  /** Dropping a blank head of `s` (leaving `t`) and then a blank tail of
      `t` (leaving `r`) drops a blank head and a blank tail of `s`. */
  lemma HeadTailSlice(s: string, t: string, r: string)
    requires |t| <= |s| && t == s[|s| - |t|..] && IsBlank(s[..|s| - |t|])
    requires |r| <= |t| && r == t[..|r|] && IsBlank(t[|r|..])
    ensures Strips(s, |s| - |t|, r)
  {
    var k := |s| - |t|;
    assert r == s[k..k + |r|];
    assert s[k + |r|..] == t[|r|..];
  }

  /** The two passes drop everything exactly when `s` is blank, because
      what the first pass keeps cannot start with white space. */
  lemma HeadTailBlank(s: string, t: string, r: string)
    requires |t| <= |s| && t == s[|s| - |t|..] && IsBlank(s[..|s| - |t|])
    requires t == [] || !IsSpace(t[0])
    requires |r| <= |t| && IsBlank(t[|r|..])
    ensures |r| == 0 <==> IsBlank(s)
  {
    var k := |s| - |t|;
    // a blank `s` leaves nothing after the first pass
    assert t != [] ==> t[0] == s[k];
    if |r| == 0 {
      // then `t` is blank; as it cannot start with white space, it is empty
      assert t[|r|..] == t;
      assert s[..k] == s;
    }
  }

  /** Trimming text that has no white space at its ends leaves it as it is. */
  lemma TrimOfTrimmed(s: string)
    requires IsTrimmed(s)
    ensures Trim(s) == s
  {
    assert TrimStart(s) == s;
    assert TrimEnd(s) == s;
  }

  /** `trim` is idempotent: `s.trim().trim() == s.trim()`. */
  lemma TrimIdempotent(s: string)
    ensures Trim(Trim(s)) == Trim(s)
  {
    TrimOfTrimmed(Trim(s));
  }
}
