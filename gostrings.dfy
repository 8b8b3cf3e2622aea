/** The handful of Go `strings` and `path/filepath` operations the update
    engine relies on, over strings as sequences of characters. */
module GoStrings {

  /** unicode.IsSpace: the characters with the Unicode White_Space property. */
  predicate IsSpace(c: char)
  {
    c == ' ' || c == '\t' || c == '\n' || c == '\r' || c == '\U{B}' || c == '\U{C}'
    || c == '\U{85}' || c == '\U{A0}' || c == '\U{1680}'
    || ('\U{2000}' <= c <= '\U{200A}')
    || c == '\U{2028}' || c == '\U{2029}' || c == '\U{202F}' || c == '\U{205F}' || c == '\U{3000}'
  }

  predicate HasPrefix(s: string, prefix: string)
  {
    |prefix| <= |s| && s[..|prefix|] == prefix
  }

  predicate HasSuffix(s: string, suffix: string)
  {
    |suffix| <= |s| && s[|s| - |suffix|..] == suffix
  }

  /** strings.Contains: `sub` occurs somewhere in `s`. */
  predicate Contains(s: string, sub: string)
  {
    exists i | 0 <= i <= |s| - |sub| :: OccursAt(s, sub, i)
  }

  /** `sub` occurs in `s` starting at index `i`. */
  predicate OccursAt(s: string, sub: string, i: int)
  {
    0 <= i <= |s| - |sub| && s[i..i + |sub|] == sub
  }

  /** Every string containing `p + q` contains `p`. */
  lemma ContainsPrefixOf(s: string, p: string, q: string)
    requires Contains(s, p + q)
    ensures Contains(s, p)
  {
    var i :| 0 <= i <= |s| - |p + q| && OccursAt(s, p + q, i);
    assert s[i..i + |p|] == (p + q)[..|p|];
    assert OccursAt(s, p, i);
  }

  /** strings.TrimRight with a one-character cutset: drops every trailing `c`. */
  function TrimRight(s: string, c: char): (r: string)
    ensures HasPrefix(s, r)
    ensures r == [] || r[|r| - 1] != c
    ensures forall i | |r| <= i < |s| :: s[i] == c
  {
    if |s| > 0 && s[|s| - 1] == c then TrimRight(s[..|s| - 1], c) else s
  }

  /** Drops leading white space. */
  function TrimLeftSpace(s: string): (r: string)
    ensures HasSuffix(s, r)
    ensures r == [] || !IsSpace(r[0])
    ensures forall i | 0 <= i < |s| - |r| :: IsSpace(s[i])
  {
    if |s| > 0 && IsSpace(s[0]) then TrimLeftSpace(s[1..]) else s
  }

  /** Drops trailing white space. */
  function TrimRightSpace(s: string): (r: string)
    ensures HasPrefix(s, r)
    ensures r == [] || !IsSpace(r[|r| - 1])
    ensures forall i | |r| <= i < |s| :: IsSpace(s[i])
  {
    if |s| > 0 && IsSpace(s[|s| - 1]) then TrimRightSpace(s[..|s| - 1]) else s
  }

  /** strings.TrimSpace. */
  function TrimSpace(s: string): string
  {
    TrimRightSpace(TrimLeftSpace(s))
  }

  /** strings.TrimSpace(s) == "" exactly when `s` is all white space. */
  lemma TrimSpaceEmpty(s: string)
    ensures TrimSpace(s) == [] <==> forall i | 0 <= i < |s| :: IsSpace(s[i])
  {
    var l := TrimLeftSpace(s);
    if TrimSpace(s) == [] {
      assert l == [];
    }
  }

  /** Length of the run of non-space characters that starts `s`. */
  function TokenLength(s: string): (n: nat)
    ensures n <= |s|
    ensures forall i | 0 <= i < n :: !IsSpace(s[i])
    ensures n == |s| || IsSpace(s[n])
  {
    if |s| == 0 || IsSpace(s[0]) then 0 else 1 + TokenLength(s[1..])
  }

  /** strings.Fields: the maximal runs of non-space characters, in order. */
  function Fields(s: string): (r: seq<string>)
    decreases |s|
  {
    var t := TrimLeftSpace(s);
    if t == [] then []
    else
      FieldsStep(s);
      var n := TokenLength(t);
      [t[..n]] + Fields(t[n..])
  }

  /** The first field is a non-empty token no longer than the trimmed string. */
  lemma FieldsStep(s: string)
    requires TrimLeftSpace(s) != []
    ensures 0 < TokenLength(TrimLeftSpace(s)) <= |TrimLeftSpace(s)| <= |s|
    ensures IsToken(TrimLeftSpace(s)[..TokenLength(TrimLeftSpace(s))])
  {
  }

  /** Every field is a token. */
  lemma {:induction false} FieldsAreTokens(s: string)
    ensures forall k | 0 <= k < |Fields(s)| :: IsToken(Fields(s)[k])
    decreases |s|
  {
    var t := TrimLeftSpace(s);
    if t != [] {
      FieldsStep(s);
      var n := TokenLength(t);
      FieldsAreTokens(t[n..]);
      var rest := Fields(t[n..]);
      assert Fields(s) == [t[..n]] + rest;
      forall k | 0 <= k < |Fields(s)|
        ensures IsToken(Fields(s)[k])
      {
        if k > 0 { assert Fields(s)[k] == rest[k - 1]; }
      }
    }
  }

  /** A non-empty run of non-space characters. */
  predicate IsToken(w: string)
  {
    w != [] && forall i | 0 <= i < |w| :: !IsSpace(w[i])
  }

  /** strings.Split with a one-character separator: the pieces between
      separators, so that a string without a separator is one piece. */
  function Split(s: string, sep: char): (r: seq<string>)
    ensures |r| >= 1
    ensures forall k | 0 <= k < |r| :: sep !in r[k]
  {
    if sep !in s then [s]
    else
      var i := IndexOf(s, sep);
      [s[..i]] + Split(s[i + 1..], sep)
  }

  /** Index of the first `c` in `s`. */
  function IndexOf(s: string, c: char): (i: nat)
    requires c in s
    ensures i < |s| && s[i] == c && c !in s[..i]
  {
    if s[0] == c then 0 else 1 + IndexOf(s[1..], c)
  }

  /** The segment after the last slash of `p`, i.e. a suffix of `p` free of `/`. */
  function LastSegment(p: string): (r: string)
    ensures HasSuffix(p, r)
    ensures '/' !in r
    ensures |r| < |p| ==> p[|p| - |r| - 1] == '/'
  {
    if |p| == 0 || p[|p| - 1] == '/' then []
    else LastSegment(p[..|p| - 1]) + [p[|p| - 1]]
  }

  /** filepath.Base for slash-separated paths: "." for the empty path, "/" for
      a path of slashes only, otherwise the last element after trailing
      slashes are removed. */
  function Base(path: string): (r: string)
    ensures r != []
    ensures r == "/" || '/' !in r
    ensures path != [] && r != "/" ==> HasSuffix(TrimRight(path, '/'), r)
  {
    if path == [] then "."
    else
      var p := TrimRight(path, '/');
      if p == [] then "/"
      else
        LastSegment(p)
  }
}
