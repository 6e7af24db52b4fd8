/**
 * ASCII case mapping as Python's `str.lower` and `str.title` perform it.
 * Only the letters 'A'..'Z' and 'a'..'z' are cased here; every other
 * character is left as it is and counts as uncased.
 */
module Text {

  predicate IsUpper(c: char) { 'A' <= c <= 'Z' }

  predicate IsLower(c: char) { 'a' <= c <= 'z' }

  predicate IsLetter(c: char) { IsUpper(c) || IsLower(c) }

  /** `str.lower` on one character. */
  function LowerChar(c: char): (d: char)
    ensures IsLetter(d) == IsLetter(c) && !IsUpper(d)
    ensures !IsUpper(c) ==> d == c
  {
    if IsUpper(c) then (c as int + 32) as char else c
  }

  /** `str.upper` on one character. */
  function UpperChar(c: char): (d: char)
    ensures IsLetter(d) == IsLetter(c) && !IsLower(d)
    ensures !IsLower(c) ==> d == c
  {
    if IsLower(c) then (c as int - 32) as char else c
  }

  /** Two characters that differ at most in the case of a letter. */
  predicate SameIgnoringCase(c: char, d: char) {
    || c == d
    || (IsUpper(c) && d as int == c as int + 32)
    || (IsLower(c) && d as int == c as int - 32)
  }

  lemma SameIgnoringCaseIff(c: char, d: char)
    ensures SameIgnoringCase(c, d) <==> LowerChar(c) == LowerChar(d)
    ensures SameIgnoringCase(c, d) <==> UpperChar(c) == UpperChar(d)
  {}

  lemma CaseComposition(c: char)
    ensures LowerChar(UpperChar(c)) == LowerChar(c)
    ensures UpperChar(LowerChar(c)) == UpperChar(c)
  {}

  /** `str.lower`: every character mapped by LowerChar, in place. */
  function Lower(s: string): (r: string)
    ensures |r| == |s|
    ensures forall i :: 0 <= i < |s| ==> r[i] == LowerChar(s[i])
  {
    if s == [] then [] else [LowerChar(s[0])] + Lower(s[1..])
  }

  /** Lower-casing twice is lower-casing once. */
  lemma LowerIdempotent(s: string)
    ensures Lower(Lower(s)) == Lower(s)
  {
    assert forall i :: 0 <= i < |s| ==> Lower(Lower(s))[i] == Lower(s)[i];
  }

  /** `b` is `a` with some of its letters re-cased. */
  predicate Recased(a: string, b: string) {
    |a| == |b| && forall i :: 0 <= i < |a| ==> SameIgnoringCase(a[i], b[i])
  }

  /** Two strings lower-case alike exactly when one is a re-casing of the other. */
  lemma RecasedIffSameLower(a: string, b: string)
    ensures Recased(a, b) <==> Lower(a) == Lower(b)
  {
    if Recased(a, b) {
      forall i | 0 <= i < |a| ensures Lower(a)[i] == Lower(b)[i] {
        SameIgnoringCaseIff(a[i], b[i]);
      }
    }
    if Lower(a) == Lower(b) {
      forall i | 0 <= i < |a| ensures SameIgnoringCase(a[i], b[i]) {
        assert Lower(a)[i] == Lower(b)[i];
        SameIgnoringCaseIff(a[i], b[i]);
      }
    }
  }

  /** Position `i` of `s` begins a word: no letter stands right before it. */
  predicate StartsWord(s: string, i: nat)
    requires i < |s|
  {
    i == 0 || !IsLetter(s[i - 1])
  }

  /**
   * The loop of `str.title`, resumed after a prefix whose last character was
   * (`afterLetter`) or was not a cased letter: a letter that follows a letter
   * is lower-cased, any other is upper-cased.
   */
  function TitleFrom(s: string, afterLetter: bool): (r: string)
    ensures |r| == |s|
    ensures forall i :: 0 <= i < |s| ==>
      r[i] == (if (if i == 0 then afterLetter else IsLetter(s[i - 1])) then LowerChar(s[i]) else UpperChar(s[i]))
  {
    if s == [] then []
    else [if afterLetter then LowerChar(s[0]) else UpperChar(s[0])] + TitleFrom(s[1..], IsLetter(s[0]))
  }

  /** `str.title`. */
  function TitleCase(s: string): (r: string)
    ensures |r| == |s|
    ensures forall i :: 0 <= i < |s| ==>
      r[i] == if StartsWord(s, i) then UpperChar(s[i]) else LowerChar(s[i])
  {
    TitleFrom(s, false)
  }

  /** Title-casing keeps which characters are letters. */
  lemma TitleCaseLetters(s: string, i: nat)
    requires i < |s|
    ensures IsLetter(TitleCase(s)[i]) == IsLetter(s[i])
  {}

  /** Title-casing an already title-cased string changes nothing. */
  lemma TitleCaseIdempotent(s: string)
    ensures TitleCase(TitleCase(s)) == TitleCase(s)
  {
    var t := TitleCase(s);
    forall i | 0 <= i < |s| ensures TitleCase(t)[i] == t[i] {
      if i > 0 { TitleCaseLetters(s, i - 1); }
      CaseComposition(s[i]);
    }
  }

  /** Title-casing does not change what the string lower-cases to. */
  lemma LowerOfTitleCase(s: string)
    ensures Lower(TitleCase(s)) == Lower(s)
  {
    forall i | 0 <= i < |s| ensures Lower(TitleCase(s))[i] == Lower(s)[i] {
      CaseComposition(s[i]);
    }
  }

  /** Strings that lower-case alike title-case alike. */
  lemma TitleCaseRecased(a: string, b: string)
    requires Lower(a) == Lower(b)
    ensures TitleCase(a) == TitleCase(b)
  {
    RecasedIffSameLower(a, b);
    forall i | 0 <= i < |a| ensures TitleCase(a)[i] == TitleCase(b)[i] {
      SameIgnoringCaseIff(a[i], b[i]);
      if i > 0 {
        SameIgnoringCaseIff(a[i - 1], b[i - 1]);
      }
    }
  }
}
