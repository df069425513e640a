/**
 * The name pattern of the validator,
 *   ^L+((\sL+)+)?$   where L is the name letter class,
 * as a hand-written recogniser (MatchName) that follows the pattern's shape,
 * and the character-level description of the accepted names (WellFormedName),
 * with a proof that the two agree.
 */
module Name {
  import opened CharClasses

  /** A non-empty string of letters and whitespace that starts and ends with a
      letter and never has two whitespace characters in a row. */
  predicate WellFormedName(s: string) {
    && |s| >= 1
    && IsNameLetter(s[0]) && IsNameLetter(s[|s| - 1])
    && (forall i | 0 <= i < |s| :: IsNameLetter(s[i]) || IsJsSpace(s[i]))
    && (forall i | 0 <= i < |s| - 1 :: IsJsSpace(s[i]) ==> !IsJsSpace(s[i + 1]))
  }

  /** Length of the longest prefix of s made of name letters. */
  function LetterRun(s: string): (n: nat)
    ensures n <= |s|
    ensures forall k | 0 <= k < n :: IsNameLetter(s[k])
    ensures n < |s| ==> !IsNameLetter(s[n])
  {
    if s == [] || !IsNameLetter(s[0]) then 0 else 1 + LetterRun(s[1..])
  }

  /** `L+` followed either by the end or by one `\s` and the rest matched again.
      Taking the longest letter run loses no match, since `\s` is never a letter. */
  predicate MatchName(s: string)
    ensures MatchName(s) ==> |s| >= 1 && IsNameLetter(s[0]) && IsNameLetter(s[|s| - 1])
    decreases |s|
  {
    var n := LetterRun(s);
    && n >= 1
    && (n == |s| || (IsJsSpace(s[n]) && MatchName(s[n + 1..])))
  }

  /** The recogniser accepts exactly the well-formed names. */
  lemma {:induction false} MatchNameIff(s: string)
    ensures MatchName(s) <==> WellFormedName(s)
    decreases |s|
  {
    var n := LetterRun(s);
    if n >= 1 && n < |s| {
      var t := s[n + 1..];
      MatchNameIff(t);
      forall i | 0 <= i < |t| ensures t[i] == s[n + 1 + i] { }
      if MatchName(s) {
        assert IsJsSpace(s[n]) && WellFormedName(t);
        forall i | 0 <= i < |s|
          ensures IsNameLetter(s[i]) || IsJsSpace(s[i])
        {
          if i > n { assert s[i] == t[i - n - 1]; }
        }
        forall i | 0 <= i < |s| - 1
          ensures IsJsSpace(s[i]) ==> !IsJsSpace(s[i + 1])
        {
          NameClassesDisjoint(s[i]);
          NameClassesDisjoint(s[i + 1]);
          if i > n { assert s[i] == t[i - n - 1] && s[i + 1] == t[i - n]; }
          else if i == n { assert s[i + 1] == t[0]; }
        }
        assert s[|s| - 1] == t[|t| - 1];
      }
      if WellFormedName(s) {
        NameClassesDisjoint(s[n]);
        assert IsJsSpace(s[n]);
        assert n + 1 < |s|;
        NameClassesDisjoint(s[n + 1]);
        assert WellFormedName(t) by {
          forall i | 0 <= i < |t| - 1
            ensures IsJsSpace(t[i]) ==> !IsJsSpace(t[i + 1])
          {
            assert t[i] == s[n + 1 + i] && t[i + 1] == s[n + 1 + i + 1];
          }
        }
      }
    } else if n >= 1 && WellFormedName(s) {
      assert MatchName(s);
    }
  }

  /** A name containing a digit is never accepted. */
  lemma NameRejectsDigit(s: string, i: nat)
    requires i < |s| && IsDigit(s[i])
    ensures !MatchName(s)
  {
    MatchNameIff(s);
    NameClassesDisjoint(s[i]);
  }
}
