/**
 * The validation runner: apply an ordered list of rules to one value, stop at
 * the first rule that returns a message and report it, or report "" when every
 * rule passes. FirstFailure says what the result is; IsValid is the loop that
 * computes it, without the user-interface side effect of showing the message.
 */
module Runner {
  import opened Rules

  /** The message of the first rule that fails on value, or "" if none fails. */
  function FirstFailure(value: string, rules: seq<Rule>): (msg: string)
    ensures msg == "" <==> forall i | 0 <= i < |rules| :: rules[i](value) == ""
    ensures msg != "" ==>
      exists k | 0 <= k < |rules| :: msg == rules[k](value) && forall h | 0 <= h < k :: rules[h](value) == ""
  {
    if rules == [] then ""
    else if rules[0](value) != "" then rules[0](value)
    else
      var rest := FirstFailure(value, rules[1..]);
      assert forall i | 0 <= i < |rules| - 1 :: rules[1..][i] == rules[i + 1];
      rest
  }

  /** Runs the rules in order and returns at the first non-empty message. */
  method IsValid(value: string, rules: seq<Rule>) returns (msg: string)
    ensures msg == FirstFailure(value, rules)
  {
    for i := 0 to |rules|
      invariant forall h | 0 <= h < i :: rules[h](value) == ""
    {
      msg := rules[i](value);
      if msg != "" {
        FirstFailureAt(value, rules, i);
        return;
      }
    }
    msg := "";
  }

  /** When rule k is the first to fail, its message is the result. */
  lemma {:induction false} FirstFailureAt(value: string, rules: seq<Rule>, k: nat)
    requires k < |rules| && rules[k](value) != ""
    requires forall h | 0 <= h < k :: rules[h](value) == ""
    ensures FirstFailure(value, rules) == rules[k](value)
  {
    if k > 0 {
      assert rules[0](value) == "";
      assert rules[1..][k - 1] == rules[k];
      FirstFailureAt(value, rules[1..], k - 1);
    }
  }

  /** Running two lists one after the other is running their concatenation:
      the second list is consulted only when the first reports no failure. */
  lemma {:induction false} FirstFailureAppend(value: string, first: seq<Rule>, second: seq<Rule>)
    ensures FirstFailure(value, first + second) ==
      if FirstFailure(value, first) != "" then FirstFailure(value, first) else FirstFailure(value, second)
  {
    if first == [] {
      assert first + second == second;
    } else {
      assert (first + second)[0] == first[0];
      assert (first + second)[1..] == first[1..] + second;
      FirstFailureAppend(value, first[1..], second);
    }
  }

  /** Rules after the first failing one do not matter: replacing them by any
      other rules leaves the result unchanged. */
  lemma LaterRulesNotConsulted(value: string, rules: seq<Rule>, k: nat, others: seq<Rule>)
    requires k < |rules| && rules[k](value) != ""
    requires forall h | 0 <= h < k :: rules[h](value) == ""
    ensures FirstFailure(value, rules[..k + 1] + others) == FirstFailure(value, rules)
  {
    FirstFailureAt(value, rules, k);
    FirstFailureAt(value, rules[..k + 1], k);
    FirstFailureAppend(value, rules[..k + 1], others);
  }

  /** If the rules at positions i < j both fail, the reported message comes from
      a rule at or before i, so rule j never decides the outcome. */
  lemma EarlierFailureWins(value: string, rules: seq<Rule>, i: nat, j: nat)
    requires i < j < |rules|
    requires rules[i](value) != "" && rules[j](value) != ""
    ensures exists k | 0 <= k <= i :: FirstFailure(value, rules) == rules[k](value)
  {
    var msg := FirstFailure(value, rules);
    var k :| 0 <= k < |rules| && msg == rules[k](value) && forall h | 0 <= h < k :: rules[h](value) == "";
    assert k <= i;
  }

  /** The runner on the short lists the form uses, unfolded: each rule is
      consulted only when every rule before it has passed. */
  lemma FirstFailureOfOne(value: string, a: Rule)
    ensures FirstFailure(value, [a]) == a(value)
  {
    assert [a][1..] == [];
  }

  /** For [ruleA, ruleB], a failure of ruleA is reported even if ruleB fails too. */
  lemma FirstFailureOfTwo(value: string, a: Rule, b: Rule)
    ensures FirstFailure(value, [a, b]) == if a(value) != "" then a(value) else b(value)
  {
    assert [a, b][1..] == [b];
    FirstFailureOfOne(value, b);
  }

  lemma FirstFailureOfThree(value: string, a: Rule, b: Rule, c: Rule)
    ensures FirstFailure(value, [a, b, c]) ==
      if a(value) != "" then a(value) else if b(value) != "" then b(value) else c(value)
  {
    assert [a, b, c][1..] == [b, c];
    FirstFailureOfTwo(value, b, c);
  }

  lemma FirstFailureOfFour(value: string, a: Rule, b: Rule, c: Rule, d: Rule)
    ensures FirstFailure(value, [a, b, c, d]) ==
      if a(value) != "" then a(value)
      else if b(value) != "" then b(value)
      else if c(value) != "" then c(value)
      else d(value)
  {
    assert [a, b, c, d][1..] == [b, c, d];
    FirstFailureOfThree(value, b, c, d);
  }
}
