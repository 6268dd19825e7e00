/** The string operations of the line classifier: `StartsWith`, `Substring` and `Trim`. */
module Text {

  /**
   * `char.IsWhiteSpace` of .NET: the Unicode White_Space characters, that is
   * the space separators, the line and paragraph separators, U+0009 to U+000D
   * and U+0085. Within ASCII these are the space and the five controls from
   * tab to carriage return.
   */
  predicate IsWhiteSpace(c: char): (b: bool)
    ensures c < '\U{80}' ==> (b <==> c == ' ' || c == '\t' || c == '\n' || c == '\U{B}' || c == '\U{C}' || c == '\r')
  {
    || ('\t' <= c <= '\r')
    || c == ' '
    || c == '\U{85}'
    || c == '\U{A0}'
    || c == '\U{1680}'
    || ('\U{2000}' <= c <= '\U{200A}')
    || c == '\U{2028}'
    || c == '\U{2029}'
    || c == '\U{202F}'
    || c == '\U{205F}'
    || c == '\U{3000}'
  }

  ghost predicate AllWhiteSpace(s: string) {
    forall k :: 0 <= k < |s| ==> IsWhiteSpace(s[k])
  }

  /** `s` is `r` with only white space around it, `r` starting at offset `i`. */
  ghost predicate Padded(s: string, i: int, r: string) {
    && 0 <= i <= i + |r| <= |s|
    && s[i..i + |r|] == r
    && (forall k :: 0 <= k < i ==> IsWhiteSpace(s[k]))
    && (forall k :: i + |r| <= k < |s| ==> IsWhiteSpace(s[k]))
  }

  /** `String.TrimStart()`: drops the leading white space. */
  function TrimStart(s: string): string {
    if s != [] && IsWhiteSpace(s[0]) then TrimStart(s[1..]) else s
  }

  /** `String.TrimEnd()`: drops the trailing white space. */
  function TrimEnd(s: string): string {
    if s != [] && IsWhiteSpace(s[|s| - 1]) then TrimEnd(s[..|s| - 1]) else s
  }

  /** `String.Trim()`: drops the white space at both ends, and keeps none there. */
  function Trim(s: string): (r: string)
    ensures |r| <= |s|
    ensures r != [] ==> !IsWhiteSpace(r[0]) && !IsWhiteSpace(r[|r| - 1])
  {
    TrimStartSpec(s);
    TrimEndSpec(TrimStart(s));
    TrimEnd(TrimStart(s))
  }

  /** `TrimStart` keeps a suffix, drops only white space, and keeps none in front. */
  lemma {:induction false} TrimStartSpec(s: string)
    ensures Padded(s, |s| - |TrimStart(s)|, TrimStart(s))
    ensures TrimStart(s) == [] || !IsWhiteSpace(TrimStart(s)[0])
    decreases |s|
  {
    if s != [] && IsWhiteSpace(s[0]) {
      TrimStartSpec(s[1..]);
      var r := TrimStart(s);
      assert s[|s| - |r|..] == s[1..][|s| - 1 - |r|..];
      forall k | 1 <= k < |s| - |r| ensures IsWhiteSpace(s[k]) {
        assert s[k] == s[1..][k - 1];
      }
    }
  }

  /** `TrimEnd` keeps a prefix, drops only white space, and keeps none at the back. */
  lemma {:induction false} TrimEndSpec(s: string)
    ensures Padded(s, 0, TrimEnd(s))
    ensures TrimEnd(s) == [] || !IsWhiteSpace(TrimEnd(s)[|TrimEnd(s)| - 1])
    decreases |s|
  {
    if s != [] && IsWhiteSpace(s[|s| - 1]) {
      TrimEndSpec(s[..|s| - 1]);
      var r := TrimEnd(s);
      assert s[..|r|] == s[..|s| - 1][..|r|];
      forall k | |r| <= k < |s| - 1 ensures IsWhiteSpace(s[k]) {
        assert s[k] == s[..|s| - 1][k];
      }
    }
  }

  /**
   * `Trim` drops only white space, from both ends, and leaves none at either
   * end of its result.
   */
  lemma TrimSpec(s: string)
    ensures exists i :: Padded(s, i, Trim(s))
    ensures Trim(s) == [] || (!IsWhiteSpace(Trim(s)[0]) && !IsWhiteSpace(Trim(s)[|Trim(s)| - 1]))
  {
    var start := TrimStart(s);
    var core := TrimEnd(start);
    TrimStartSpec(s);
    TrimEndSpec(start);
    var i := |s| - |start|;
    assert s[i..i + |core|] == start[..|core|];
    forall k | i + |core| <= k < |s| ensures IsWhiteSpace(s[k]) {
      assert s[k] == start[k - i];
    }
    assert Trim(s) == core && Padded(s, i, core);
    if core != [] {
      assert core[0] == start[0];
    }
  }

  /** The trimmed string is determined: any core with only white space around it is `Trim`'s result. */
  lemma TrimUnique(s: string, i: int, r: string)
    requires Padded(s, i, r)
    requires r == [] || (!IsWhiteSpace(r[0]) && !IsWhiteSpace(r[|r| - 1]))
    ensures Trim(s) == r
  {
    var t := Trim(s);
    TrimSpec(s);
    var j :| Padded(s, j, t);
    if t != [] {
      assert s[j] == t[0] && s[j + |t| - 1] == t[|t| - 1];
    }
    if r != [] {
      assert s[i] == r[0] && s[i + |r| - 1] == r[|r| - 1];
    }
  }

  /** Trimming white space from around a core that has none at its ends gives back the core. */
  lemma TrimPadding(pre: string, core: string, post: string)
    requires AllWhiteSpace(pre) && AllWhiteSpace(post)
    requires core == [] || (!IsWhiteSpace(core[0]) && !IsWhiteSpace(core[|core| - 1]))
    ensures Trim(pre + core + post) == core
  {
    var s := pre + core + post;
    assert s[..|pre|] == pre;
    assert s[|pre|..|pre| + |core|] == core;
    assert s[|pre| + |core|..] == post;
    TrimUnique(s, |pre|, core);
  }
}
