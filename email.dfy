/**
 * The e-mail pattern of the validator,
 *   ^[a-zA-Z\d\.\-\_]+(\+\d+)?@[a-zA-Z\d\.\-\_]{1,65}\.[a-zA-Z]{1,5}$
 * first as the language it denotes (InEmailLanguage) and then as a
 * hand-written recogniser (MatchEmail), with a proof that the two agree.
 */
module Email {
  import opened CharClasses

  predicate AllWordChars(s: string) {
    forall i | 0 <= i < |s| :: IsEmailWordChar(s[i])
  }

  predicate AllAsciiLetters(s: string) {
    forall i | 0 <= i < |s| :: IsAsciiLetter(s[i])
  }

  /** `[a-zA-Z\d\.\-\_]+(\+\d+)?`: a word, optionally followed by `+` and digits. */
  ghost predicate LocalPart(l: string) {
    || (|l| >= 1 && AllWordChars(l))
    || exists p | 1 <= p < |l| - 1 :: AllWordChars(l[..p]) && l[p] == '+' && AllDigits(l[p + 1..])
  }

  /** `[a-zA-Z\d\.\-\_]{1,65}` */
  predicate DomainPart(d: string) {
    1 <= |d| <= 65 && AllWordChars(d)
  }

  /** `[a-zA-Z]{1,5}` */
  predicate TopLevelPart(t: string) {
    1 <= |t| <= 5 && AllAsciiLetters(t)
  }

  /** The strings the whole pattern accepts: local part, `@`, domain, `.`, top-level part. */
  ghost predicate InEmailLanguage(s: string) {
    exists at, dot | 0 <= at < dot < |s| ::
      && s[at] == '@' && s[dot] == '.'
      && LocalPart(s[..at]) && DomainPart(s[at + 1..dot]) && TopLevelPart(s[dot + 1..])
  }

  /** Position of the first c in s, or |s| when there is none. */
  function IndexOf(s: string, c: char): (i: nat)
    ensures i <= |s|
    ensures i < |s| ==> s[i] == c
    ensures forall k | 0 <= k < i :: s[k] != c
  {
    if s == [] then 0
    else if s[0] == c then 0
    else 1 + IndexOf(s[1..], c)
  }

  /** Position of the last c in s, or -1 when there is none. */
  function LastIndexOf(s: string, c: char): (i: int)
    ensures -1 <= i < |s|
    ensures i >= 0 ==> s[i] == c
    ensures forall k | i < k < |s| :: s[k] != c
  {
    if s == [] then -1
    else if s[|s| - 1] == c then |s| - 1
    else LastIndexOf(s[..|s| - 1], c)
  }

  /** Recognises the local part: neither the word nor the digits contain `+`,
      so the first `+` (if any) is where the suffix starts. */
  predicate MatchLocal(l: string) {
    var plus := IndexOf(l, '+');
    if plus == |l| then |l| >= 1 && AllWordChars(l)
    else 1 <= plus && plus + 1 < |l| && AllWordChars(l[..plus]) && AllDigits(l[plus + 1..])
  }

  /** Recognises the whole pattern: no part before the domain contains `@`, so the
      first `@` ends the local part; the top-level part contains no `.`, so the last
      `.` after the `@` ends the domain. */
  predicate MatchEmail(s: string)
    ensures MatchEmail(s) ==> 5 <= |s| && IsAsciiLetter(s[|s| - 1])
  {
    var at := IndexOf(s, '@');
    && at < |s|
    && MatchLocal(s[..at])
    && var rest := s[at + 1..];
       var dot := LastIndexOf(rest, '.');
       && 0 <= dot
       && DomainPart(rest[..dot])
       && TopLevelPart(rest[dot + 1..])
  }

  lemma LocalPartChars(l: string)
    requires LocalPart(l)
    ensures forall k | 0 <= k < |l| :: IsEmailWordChar(l[k]) || l[k] == '+' || IsDigit(l[k])
  {
    if !(|l| >= 1 && AllWordChars(l)) {
      var p :| 1 <= p < |l| - 1 && AllWordChars(l[..p]) && l[p] == '+' && AllDigits(l[p + 1..]);
      forall k | 0 <= k < |l|
        ensures IsEmailWordChar(l[k]) || l[k] == '+' || IsDigit(l[k])
      {
        if k < p { assert l[k] == l[..p][k]; }
        else if k > p { assert l[k] == l[p + 1..][k - p - 1]; }
      }
    }
  }

  lemma MatchLocalIff(l: string)
    ensures MatchLocal(l) <==> LocalPart(l)
  {
    var plus := IndexOf(l, '+');
    if LocalPart(l) {
      if |l| >= 1 && AllWordChars(l) {
        assert plus == |l|;
      } else {
        var p :| 1 <= p < |l| - 1 && AllWordChars(l[..p]) && l[p] == '+' && AllDigits(l[p + 1..]);
        assert forall k | 0 <= k < p :: l[k] == l[..p][k];
        assert plus == p;
      }
    }
  }

  lemma MatchEmailSound(s: string)
    requires MatchEmail(s)
    ensures InEmailLanguage(s)
  {
    var at := IndexOf(s, '@');
    var rest := s[at + 1..];
    var dot := LastIndexOf(rest, '.');
    MatchLocalIff(s[..at]);
    assert s[at + 1..at + 1 + dot] == rest[..dot];
    assert s[at + 1 + dot + 1..] == rest[dot + 1..];
    assert s[at + 1 + dot] == '.';
  }

  lemma IndexOfIs(s: string, c: char, a: nat)
    requires a < |s| && s[a] == c
    requires forall k | 0 <= k < a :: s[k] != c
    ensures IndexOf(s, c) == a
  {
  }

  lemma LastIndexOfIs(s: string, c: char, d: nat)
    requires d < |s| && s[d] == c
    requires forall k | d < k < |s| :: s[k] != c
    ensures LastIndexOf(s, c) == d
  {
  }

  lemma MatchEmailComplete(s: string, a: nat, d: nat)
    requires a < d < |s| && s[a] == '@' && s[d] == '.'
    requires LocalPart(s[..a]) && DomainPart(s[a + 1..d]) && TopLevelPart(s[d + 1..])
    ensures MatchEmail(s)
  {
    LocalPartChars(s[..a]);
    forall k | 0 <= k < a
      ensures s[k] != '@'
    {
      assert s[k] == s[..a][k];
    }
    IndexOfIs(s, '@', a);
    MatchLocalIff(s[..a]);
    var rest := s[a + 1..];
    var dot := d - a - 1;
    forall k | dot < k < |rest|
      ensures rest[k] != '.'
    {
      assert rest[k] == s[d + 1..][k - dot - 1];
    }
    LastIndexOfIs(rest, '.', dot);
    assert rest[..dot] == s[a + 1..d];
    assert rest[dot + 1..] == s[d + 1..];
  }

  /** The recogniser accepts exactly the strings of the pattern's language. */
  lemma MatchEmailIff(s: string)
    ensures MatchEmail(s) <==> InEmailLanguage(s)
  {
    if MatchEmail(s) {
      MatchEmailSound(s);
    }
    if InEmailLanguage(s) {
      var a, d :| && 0 <= a < d < |s| && s[a] == '@' && s[d] == '.'
                  && LocalPart(s[..a]) && DomainPart(s[a + 1..d]) && TopLevelPart(s[d + 1..]);
      MatchEmailComplete(s, a, d);
    }
  }

  /** An accepted address has exactly one `@`. */
  lemma EmailSingleAt(s: string)
    requires InEmailLanguage(s)
    ensures exists at | 0 <= at < |s| :: s[at] == '@' && forall k | 0 <= k < |s| && s[k] == '@' :: k == at
  {
    var a, d :| && 0 <= a < d < |s| && s[a] == '@' && s[d] == '.'
                && LocalPart(s[..a]) && DomainPart(s[a + 1..d]) && TopLevelPart(s[d + 1..]);
    LocalPartChars(s[..a]);
    forall k | 0 <= k < |s| && k != a
      ensures s[k] != '@'
    {
      if k < a {
        assert s[k] == s[..a][k];
      } else if k < d {
        assert s[k] == s[a + 1..d][k - a - 1];
      } else if k > d {
        assert s[k] == s[d + 1..][k - d - 1];
      }
    }
  }
}
