/** The two string tests the services use: `String.trim` followed by
    `String.isBlank` for message text, and `String.isBlank` alone for usernames. */
module JavaText {

  /** `trim` strips every code point up to and including U+0020 from both ends. */
  predicate IsTrimmable(c: char) {
    c <= ' '
  }

  /** `Character.isWhitespace`: the ASCII controls TAB..CR and FS..US, and the
      Unicode space, line and paragraph separators other than the no-break spaces. */
  predicate IsWhitespace(c: char): (r: bool)
    ensures c == '\U{A0}' || c == '\U{2007}' || c == '\U{202F}' ==> !r
    ensures r ==> c <= ' ' || '\U{1680}' <= c <= '\U{3000}'
  {
    || c == ' '
    || ('\t' <= c <= '\r')
    || ('\U{1C}' <= c <= '\U{1F}')
    || c == '\U{1680}'
    || ('\U{2000}' <= c <= '\U{2006}')
    || ('\U{2008}' <= c <= '\U{200A}')
    || c == '\U{2028}'
    || c == '\U{2029}'
    || c == '\U{205F}'
    || c == '\U{3000}'
  }

  /** `isBlank`: empty, or white space only. */
  predicate IsBlank(s: string) {
    forall i :: 0 <= i < |s| ==> IsWhitespace(s[i])
  }

  /** What remains after the leading trimmable characters are dropped. */
  function TrimStart(s: string): (r: string)
    ensures |r| <= |s| && r == s[|s| - |r|..]
    ensures forall i :: 0 <= i < |s| - |r| ==> IsTrimmable(s[i])
    ensures r == [] || !IsTrimmable(r[0])
  {
    if s != [] && IsTrimmable(s[0]) then TrimStart(s[1..]) else s
  }

  /** What remains after the trailing trimmable characters are dropped. */
  function TrimEnd(s: string): (r: string)
    ensures |r| <= |s| && r == s[..|r|]
    ensures forall i :: |r| <= i < |s| ==> IsTrimmable(s[i])
    ensures r == [] || !IsTrimmable(r[|r| - 1])
  {
    if s != [] && IsTrimmable(s[|s| - 1]) then TrimEnd(s[..|s| - 1]) else s
  }

  /** `String.trim`: the longest infix that neither starts nor ends with a
      trimmable character, found by dropping the trimmable characters at both ends. */
  function Trim(s: string): (r: string)
    ensures |r| <= |s|
    ensures r == [] || (!IsTrimmable(r[0]) && !IsTrimmable(r[|r| - 1]))
  {
    TrimEnd(TrimStart(s))
  }

  /** The test the message service applies to message text: `text.trim().isBlank()`. */
  predicate IsBlankAfterTrim(s: string) {
    IsBlank(Trim(s))
  }

  /** A prefix of a suffix is an infix. */
  lemma SliceOfSuffix(s: string, lo: nat, k: nat)
    requires lo + k <= |s|
    ensures s[lo..][..k] == s[lo..lo + k]
  {
  }

  /** `Trim` returns an infix of its input, everything cut off on either side
      is trimmable, and neither end of the result is. */
  lemma {:induction false} TrimIsInfix(s: string) returns (lo: nat, hi: nat)
    ensures lo <= hi <= |s| && Trim(s) == s[lo..hi]
    ensures forall i :: 0 <= i < lo ==> IsTrimmable(s[i])
    ensures forall i :: hi <= i < |s| ==> IsTrimmable(s[i])
    ensures Trim(s) == [] || (!IsTrimmable(s[lo]) && !IsTrimmable(s[hi - 1]))
  {
    var t := TrimStart(s);
    var u := TrimEnd(t);
    lo := |s| - |t|;
    hi := lo + |u|;
    SliceOfSuffix(s, lo, |u|);
    forall i | hi <= i < |s|
      ensures IsTrimmable(s[i])
    {
      assert s[i] == t[i - lo];
    }
  }

  /** The result of `Trim` is empty exactly when every character is trimmable. */
  lemma {:induction false} TrimEmptyIff(s: string)
    ensures Trim(s) == [] <==> forall i :: 0 <= i < |s| ==> IsTrimmable(s[i])
  {
    var lo, hi := TrimIsInfix(s);
    if Trim(s) != [] {
      assert !IsTrimmable(s[lo]);
    }
  }

  /** Trimming twice is trimming once. */
  lemma {:induction false} TrimIdempotent(s: string)
    ensures Trim(Trim(s)) == Trim(s)
  {
    var t := Trim(s);
    if t != [] {
      assert TrimStart(t) == t;
      assert TrimEnd(t) == t;
    }
  }

  /** Text made only of code points up to U+0020 (so also the empty text and
      text of control characters that are not white space) counts as blank. */
  lemma {:induction false} OnlyTrimmableIsBlankAfterTrim(s: string)
    requires forall i :: 0 <= i < |s| ==> IsTrimmable(s[i])
    ensures IsBlankAfterTrim(s)
  {
    TrimEmptyIff(s);
  }

  /** A text that passes the blank test is made of trimmable characters and
      white space only: one visible character makes it non-blank. */
  lemma {:induction false} BlankAfterTrimIsInvisible(s: string)
    requires IsBlankAfterTrim(s)
    ensures forall i :: 0 <= i < |s| ==> IsTrimmable(s[i]) || IsWhitespace(s[i])
  {
    var lo, hi := TrimIsInfix(s);
    forall i | lo <= i < hi
      ensures IsWhitespace(s[i])
    {
      assert s[i] == Trim(s)[i - lo];
    }
  }

  /** One character that is neither trimmable nor white space makes text non-blank. */
  lemma VisibleIsNotBlankAfterTrim(s: string, i: int)
    requires 0 <= i < |s| && !IsTrimmable(s[i]) && !IsWhitespace(s[i])
    ensures !IsBlankAfterTrim(s)
  {
    if IsBlankAfterTrim(s) {
      BlankAfterTrimIsInvisible(s);
    }
  }

  /** Whatever `isBlank` rejects on its own is also blank after trimming. */
  lemma {:induction false} BlankIsBlankAfterTrim(s: string)
    requires IsBlank(s)
    ensures IsBlankAfterTrim(s)
  {
    var lo, hi := TrimIsInfix(s);
    forall i | 0 <= i < |Trim(s)|
      ensures IsWhitespace(Trim(s)[i])
    {
      assert Trim(s)[i] == s[lo + i];
    }
  }

  /** The two tests differ: a lone control character that is not white space
      is a non-blank username but blank message text. */
  lemma UsernameAndTextBlanknessDiffer()
    ensures !IsBlank("\U{1}") && IsBlankAfterTrim("\U{1}")
  {
    OnlyTrimmableIsBlankAfterTrim("\U{1}");
  }
}
