/** The JavaScript string operations the search page relies on, stated over
    sequences of Unicode scalar values (Dafny's `char`). */
module JsStrings {

  /** The characters `String.prototype.trim` removes: the ECMAScript WhiteSpace
      (tab, vertical tab, form feed, space, no-break space, byte order mark and
      every space separator) and LineTerminator characters. */
  predicate IsWhitespace(c: char) {
    c == '\t' || c == '\U{000B}' || c == '\U{000C}' || c == ' ' || c == '\U{00A0}' || c == '\U{FEFF}'
    || c == '\n' || c == '\r' || c == '\U{2028}' || c == '\U{2029}'
    || c == '\U{1680}' || ('\U{2000}' <= c <= '\U{200A}') || c == '\U{202F}' || c == '\U{205F}'
    || c == '\U{3000}'
  }

  /** Every character of `s` is whitespace. */
  predicate IsBlank(s: string) {
    forall i :: 0 <= i < |s| ==> IsWhitespace(s[i])
  }

  /** The first position at or after `i` that does not hold whitespace
      (`|s|` when there is none). */
  function SkipBlanks(s: string, i: nat): (k: nat)
    requires i <= |s|
    ensures i <= k <= |s|
    ensures forall j :: i <= j < k ==> IsWhitespace(s[j])
    ensures k == |s| || !IsWhitespace(s[k])
    decreases |s| - i
  {
    if i < |s| && IsWhitespace(s[i]) then SkipBlanks(s, i + 1) else i
  }

  /** The end of `s[..j]` once the whitespace in front of `j` is dropped,
      never going back past `lo`. */
  function SkipBlanksBack(s: string, lo: nat, j: nat): (k: nat)
    requires lo <= j <= |s|
    ensures lo <= k <= j
    ensures forall x :: k <= x < j ==> IsWhitespace(s[x])
    ensures k == lo || !IsWhitespace(s[k - 1])
  {
    if j > lo && IsWhitespace(s[j - 1]) then SkipBlanksBack(s, lo, j - 1) else j
  }

  /** `String.prototype.trim`: `s` without its leading and trailing
      whitespace; the result neither starts nor ends with whitespace. */
  function Trim(s: string): (r: string)
    ensures r == [] || (!IsWhitespace(r[0]) && !IsWhitespace(r[|r| - 1]))
  {
    var lo := SkipBlanks(s, 0);
    var hi := SkipBlanksBack(s, lo, |s|);
    s[lo..hi]
  }

  /** `r` is the slice of `s` that starts at `lo`, with only whitespace cut
      off on either side. */
  ghost predicate IsTrimmedSlice(r: string, s: string, lo: int) {
    0 <= lo <= lo + |r| <= |s| && r == s[lo..lo + |r|]
    && (forall i :: 0 <= i < lo ==> IsWhitespace(s[i]))
    && (forall i :: lo + |r| <= i < |s| ==> IsWhitespace(s[i]))
  }

  /** Trimming cuts a contiguous slice out of `s` and everything cut off is
      whitespace. */
  lemma TrimIsSlice(s: string)
    ensures exists lo :: IsTrimmedSlice(Trim(s), s, lo)
  {
    assert IsTrimmedSlice(Trim(s), s, SkipBlanks(s, 0));
  }

  /** A string trims to nothing exactly when it is all whitespace. */
  lemma TrimEmptyIffBlank(s: string)
    ensures Trim(s) == [] <==> IsBlank(s)
  {
    TrimIsSlice(s);
  }

  /** A string that neither starts nor ends with whitespace is left as it
      is. */
  lemma TrimKeepsUnpadded(s: string)
    requires s == [] || (!IsWhitespace(s[0]) && !IsWhitespace(s[|s| - 1]))
    ensures Trim(s) == s
  {
    assert SkipBlanks(s, 0) == 0;
  }

  /** Trimming a trimmed string changes nothing. */
  lemma TrimIdempotent(s: string)
    ensures Trim(Trim(s)) == Trim(s)
  {
    TrimKeepsUnpadded(Trim(s));
  }

  /** The fragment sits in `s` at position `i`. */
  predicate OccursAt(s: string, fragment: string, i: int) {
    0 <= i && i + |fragment| <= |s| && s[i..i + |fragment|] == fragment
  }

  /** `String.prototype.includes`: whether `fragment` is a substring of `s`
      (the empty fragment is a substring of every string). */
  predicate Includes(s: string, fragment: string)
    ensures Includes(s, fragment) ==> |fragment| <= |s|
    ensures fragment == [] ==> Includes(s, fragment)
    decreases |s|
  {
    |fragment| <= |s| && (s[..|fragment|] == fragment || (s != [] && Includes(s[1..], fragment)))
  }

  /** `Includes` holds exactly when the fragment occurs at some position. */
  lemma {:induction false} IncludesIffOccurs(s: string, fragment: string)
    ensures Includes(s, fragment) <==> exists i :: OccursAt(s, fragment, i)
  {
    if Includes(s, fragment) {
      if s[..|fragment|] == fragment {
        assert OccursAt(s, fragment, 0);
      } else {
        IncludesIffOccurs(s[1..], fragment);
        var i :| OccursAt(s[1..], fragment, i);
        assert s[i + 1..i + 1 + |fragment|] == s[1..][i..i + |fragment|];
        assert OccursAt(s, fragment, i + 1);
      }
    }
    if exists i :: OccursAt(s, fragment, i) {
      var i :| OccursAt(s, fragment, i);
      if i > 0 {
        assert s[1..][i - 1..i - 1 + |fragment|] == s[i..i + |fragment|];
        assert OccursAt(s[1..], fragment, i - 1);
        IncludesIffOccurs(s[1..], fragment);
      }
    }
  }
}
