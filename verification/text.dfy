/** Character-level helpers for the path dispatch: ASCII case mapping and the
    ordinal suffix test behind `String.EndsWith`. */
module Text {

  predicate IsUpper(c: char) {
    'A' <= c <= 'Z'
  }

  predicate IsLower(c: char) {
    'a' <= c <= 'z'
  }

  /** Lower-cases one ASCII letter; every other character is left as it is. */
  function LowerChar(c: char): char {
    if IsUpper(c) then (c as int + 32) as char else c
  }

  /** Upper-cases one ASCII letter; every other character is left as it is. */
  function UpperChar(c: char): char {
    if IsLower(c) then (c as int - 32) as char else c
  }

  /** `s.ToLower()`, restricted to ASCII letters. */
  function Lower(s: string): string {
    seq(|s|, i requires 0 <= i < |s| => LowerChar(s[i]))
  }

  /** `s.ToUpper()`, restricted to ASCII letters. */
  function Upper(s: string): string {
    seq(|s|, i requires 0 <= i < |s| => UpperChar(s[i]))
  }

  /** Two strings that are equal up to ASCII letter case. */
  predicate SameIgnoringCase(s: string, t: string) {
    |s| == |t| && forall i :: 0 <= i < |s| ==> LowerChar(s[i]) == LowerChar(t[i])
  }

  /** Ordinal `s.EndsWith(suffix)`. */
  predicate EndsWith(s: string, suffix: string) {
    |suffix| <= |s| && s[|s| - |suffix|..] == suffix
  }

  /** Lower-casing forgets exactly the letter case: two strings have the same
      lower-case form if and only if they agree up to case. */
  lemma LowerIdentifiesCase(s: string, t: string)
    ensures Lower(s) == Lower(t) <==> SameIgnoringCase(s, t)
  {
    if SameIgnoringCase(s, t) {
      assert forall i :: 0 <= i < |s| ==> Lower(s)[i] == Lower(t)[i];
    }
    if Lower(s) == Lower(t) {
      assert |s| == |Lower(s)| == |Lower(t)| == |t|;
      forall i | 0 <= i < |s|
        ensures LowerChar(s[i]) == LowerChar(t[i])
      {
        assert Lower(s)[i] == Lower(t)[i];
      }
    }
  }

  /** Upper-casing a string first does not change its lower-case form. */
  lemma LowerAfterUpper(s: string)
    ensures Lower(Upper(s)) == Lower(s)
  {
  }

  /** `EndsWith` agrees with the decomposition reading: `s` ends with `suffix`
      exactly when `s` is some prefix followed by `suffix`. */
  lemma EndsWithIffSplit(s: string, suffix: string)
    ensures EndsWith(s, suffix) <==> exists prefix :: s == prefix + suffix
  {
    if EndsWith(s, suffix) {
      assert s == s[..|s| - |suffix|] + suffix;
    }
    if exists prefix :: s == prefix + suffix {
      var prefix :| s == prefix + suffix;
      assert s[|s| - |suffix|..] == suffix;
    }
  }
}
