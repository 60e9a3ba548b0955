/**
  The shape shared by the role-name and firstName regular expressions,
  `^F M{1,253} L$`, where F, M and L are character classes, and how Python's
  `re.match` evaluates it.

  `Matches` is the matcher: the first character, then the run of middle
  characters, then the last, and finally `$`, which in Python succeeds at the end
  of the string or just before a single final "\n". `Grammar` is the same rule
  stated with quantifiers, as the error messages describe it.
*/
module NamePattern {

  /** Every character of `t` is in the class. */
  function AllIn(t: string, cls: char -> bool): bool {
    t == [] || (cls(t[0]) && AllIn(t[1..], cls))
  }

  /** The pattern matches the whole of `s`. */
  function MatchesWhole(s: string, first: char -> bool, middle: char -> bool, last: char -> bool): bool {
    3 <= |s| <= 255 && first(s[0]) && AllIn(s[1..|s| - 1], middle) && last(s[|s| - 1])
  }

  /** `re.match` with the pattern anchored by `^` and `$`: a match ending at the end
      of the string, or just before a final newline. */
  function Matches(s: string, first: char -> bool, middle: char -> bool, last: char -> bool): bool {
    || MatchesWhole(s, first, middle, last)
    || (|s| > 0 && s[|s| - 1] == '\n' && MatchesWhole(s[..|s| - 1], first, middle, last))
  }

  /** The grammar: 3 to 255 characters, first and last from their classes, every
      character in between from the middle class. */
  ghost predicate Grammar(s: string, first: char -> bool, middle: char -> bool, last: char -> bool) {
    && 3 <= |s| <= 255
    && first(s[0])
    && last(s[|s| - 1])
    && forall i :: 0 < i < |s| - 1 ==> middle(s[i])
  }

  lemma {:induction false} AllInIff(t: string, cls: char -> bool)
    ensures AllIn(t, cls) <==> forall i :: 0 <= i < |t| ==> cls(t[i])
  {
    if t != [] {
      AllInIff(t[1..], cls);
      assert forall i :: 0 < i < |t| ==> t[i] == t[1..][i - 1];
    }
  }

  lemma MatchesWholeIff(s: string, first: char -> bool, middle: char -> bool, last: char -> bool)
    ensures MatchesWhole(s, first, middle, last) <==> Grammar(s, first, middle, last)
  {
    if 3 <= |s| <= 255 {
      var t := s[1..|s| - 1];
      AllInIff(t, middle);
      assert forall i :: 0 < i < |s| - 1 ==> s[i] == t[i - 1];
    }
  }

  /** The matcher accepts exactly the strings of the grammar, and those strings
      followed by one newline. */
  lemma MatchesIff(s: string, first: char -> bool, middle: char -> bool, last: char -> bool)
    ensures Matches(s, first, middle, last) <==>
      || Grammar(s, first, middle, last)
      || (|s| > 0 && s[|s| - 1] == '\n' && Grammar(s[..|s| - 1], first, middle, last))
  {
    MatchesWholeIff(s, first, middle, last);
    if |s| > 0 {
      MatchesWholeIff(s[..|s| - 1], first, middle, last);
    }
  }
}
