/**
 * The rule library. A rule takes a field value and returns "" when the value is
 * valid and a failure message otherwise. The rule factories Min, Max and IsSame
 * close over their parameters and return such a rule.
 */
module Rules {
  import opened Decimal
  import Email
  import Name
  import CharClasses

  /** A rule: "" means valid, any other string is the failure message. */
  type Rule = string -> string

  const RequiredMessage := "That field is required"
  const EmailMessage := "Email is not valid"
  const NameMessage := "Name is not valid"
  const MinPrefix := "Min is "
  const MaxPrefix := "Max is "
  const SameInfix := " is not same with "

  /** Fails only on the empty string; whitespace is not trimmed. */
  function IsRequired(value: string): (msg: string)
    ensures msg == "" <==> value != ""
    ensures msg != "" ==> msg == RequiredMessage
  {
    if value != "" then "" else RequiredMessage
  }

  /** Valid exactly for the strings of the e-mail pattern. */
  function IsEmail(value: string): (msg: string)
    ensures msg == "" <==> Email.InEmailLanguage(value)
    ensures msg != "" ==> msg == EmailMessage
  {
    Email.MatchEmailIff(value);
    if Email.MatchEmail(value) then "" else EmailMessage
  }

  /** Valid exactly for the strings of the name pattern. */
  function IsName(value: string): (msg: string)
    ensures msg == "" <==> Name.WellFormedName(value)
    ensures msg != "" ==> msg == NameMessage
  {
    Name.MatchNameIff(value);
    if Name.MatchName(value) then "" else NameMessage
  }

  /** A rule demanding at least num characters. */
  function Min(num: nat): (rule: Rule)
    ensures forall v {:trigger rule(v)} :: rule(v) == "" <==> |v| >= num
    ensures forall v {:trigger rule(v)} :: rule(v) != "" ==> rule(v) == MinPrefix + NatToString(num)
  {
    v => if |v| >= num then "" else MinPrefix + NatToString(num)
  }

  /** A rule demanding at most num characters. */
  function Max(num: nat): (rule: Rule)
    ensures forall v {:trigger rule(v)} :: rule(v) == "" <==> |v| <= num
    ensures forall v {:trigger rule(v)} :: rule(v) != "" ==> rule(v) == MaxPrefix + NatToString(num)
  {
    v => if |v| <= num then "" else MaxPrefix + NatToString(num)
  }

  /** A rule demanding equality with a reference value captured when the rule is built. */
  function IsSame(paramValue: string, fieldName1: string, fieldName2: string): (rule: Rule)
    ensures forall v {:trigger rule(v)} :: rule(v) == "" <==> v == paramValue
    ensures forall v {:trigger rule(v)} :: rule(v) != "" ==> rule(v) == fieldName1 + SameInfix + fieldName2
  {
    v => if paramValue == v then "" else fieldName1 + SameInfix + fieldName2
  }

  /** The message of a failing Min or Max rule names its bound: the text after
      the prefix reads back as the bound. */
  lemma BoundMessagesNameBound(num: nat, v: string)
    ensures Min(num)(v) != "" ==>
      && Min(num)(v)[..|MinPrefix|] == MinPrefix
      && CharClasses.AllDigits(Min(num)(v)[|MinPrefix|..])
      && StringToNat(Min(num)(v)[|MinPrefix|..]) == num
    ensures Max(num)(v) != "" ==>
      && Max(num)(v)[..|MaxPrefix|] == MaxPrefix
      && CharClasses.AllDigits(Max(num)(v)[|MaxPrefix|..])
      && StringToNat(Max(num)(v)[|MaxPrefix|..]) == num
  {
    DecimalRoundTrip(num);
    assert (MinPrefix + NatToString(num))[|MinPrefix|..] == NatToString(num);
    assert (MaxPrefix + NatToString(num))[|MaxPrefix|..] == NatToString(num);
  }

  /** The length bounds are inclusive: Min(8) rejects 7 characters and accepts 8,
      Max(30) accepts 30 characters and rejects 31. */
  lemma LengthBoundsInclusive(v: string)
    ensures |v| == 7 ==> Min(8)(v) == "Min is 8"
    ensures |v| == 8 ==> Min(8)(v) == ""
    ensures |v| == 30 ==> Max(30)(v) == ""
    ensures |v| == 31 ==> Max(30)(v) == "Max is 30"
  {
    assert NatToString(8) == "8";
    assert NatToString(30) == NatToString(3) + [DigitChar(0)];
  }

  /** IsRequired does not trim: a single space is accepted. */
  lemma RequiredSamples()
    ensures IsRequired("") == RequiredMessage && IsRequired("x") == "" && IsRequired(" ") == ""
  {
  }

  lemma EmailSampleAccepted()
    ensures IsEmail("a@b.co") == ""
  {
    var s := "a@b.co";
    assert s[..1] == "a" && s[2..3] == "b" && s[4..] == "co";
    assert Email.LocalPart(s[..1]);
    assert Email.InEmailLanguage(s) by {
      assert s[1] == '@' && s[3] == '.';
    }
  }

  lemma EmailSamplePlusAccepted()
    ensures IsEmail("a+1@b.com") == ""
  {
    var s := "a+1@b.com";
    assert s[..3] == "a+1" && s[4..5] == "b" && s[6..] == "com";
    assert Email.LocalPart("a+1") by {
      assert "a+1"[..1] == "a" && "a+1"[1] == '+' && "a+1"[2..] == "1";
    }
    assert Email.InEmailLanguage(s) by {
      assert s[3] == '@' && s[5] == '.';
    }
  }

  lemma EmailSampleRejected()
    ensures IsEmail("a@@b") == EmailMessage
  {
    var s := "a@@b";
    assert s[1] == '@' && s[2] == '@';
    if Email.InEmailLanguage(s) {
      Email.EmailSingleAt(s);
    }
  }

  lemma NameSampleAccepted()
    ensures IsName("John Smith") == ""
  {
    var s := "John Smith";
    assert forall i | 0 <= i < |s| && i != 4 :: CharClasses.IsNameLetter(s[i]);
    assert CharClasses.IsJsSpace(s[4]);
    assert Name.WellFormedName(s);
  }

  lemma NameSampleVietnamese()
    ensures IsName("Nguy\U{1EC5}n V\U{0103}n A") == ""
  {
    var s := "Nguy\U{1EC5}n V\U{0103}n A";
    assert |s| == 12;
    assert forall i | 0 <= i < |s| && i != 6 && i != 10 :: CharClasses.IsNameLetter(s[i]);
    assert CharClasses.IsJsSpace(s[6]) && CharClasses.IsJsSpace(s[10]);
    assert Name.WellFormedName(s);
  }

  lemma NameSampleRejected()
    ensures IsName("John3") == NameMessage
  {
    Name.NameRejectsDigit("John3", 4);
  }

  lemma SameSamples()
    ensures IsSame("abc", "A", "B")("abc") == ""
    ensures IsSame("abc", "A", "B")("abx") == "A is not same with B"
  {
  }
}
