/**
 * Form aggregation: every field is run through the runner (each stops at its
 * own first failure, but no field stops the others), the outcomes are kept
 * in field order, and the form is valid when every outcome is "".
 */
module Form {
  import opened Rules
  import opened Runner

  /** One value to check together with its ordered rules. */
  datatype Field = Field(value: string, rules: seq<Rule>)

  /** The field's own outcome: "" when all of its rules pass, otherwise the
      message of one of them. */
  function Outcome(field: Field): string {
    FirstFailure(field.value, field.rules)
  }

  /** One outcome per field, in field order. */
  function Outcomes(fields: seq<Field>): (outcomes: seq<string>)
    ensures |outcomes| == |fields|
    ensures forall i | 0 <= i < |fields| :: outcomes[i] == Outcome(fields[i])
  {
    seq(|fields|, i requires 0 <= i < |fields| => Outcome(fields[i]))
  }

  /** `every(item => !item)`: a string is falsy exactly when it is "". */
  predicate AllEmpty(outcomes: seq<string>) {
    forall i | 0 <= i < |outcomes| :: outcomes[i] == ""
  }

  predicate FormIsValid(fields: seq<Field>) {
    AllEmpty(Outcomes(fields))
  }

  /** The form is valid exactly when every rule of every field passes. */
  lemma FormValidIff(fields: seq<Field>)
    ensures FormIsValid(fields) <==>
      forall i, r | 0 <= i < |fields| && 0 <= r < |fields[i].rules| :: fields[i].rules[r](fields[i].value) == ""
  {
    if !FormIsValid(fields) {
      var i :| 0 <= i < |fields| && Outcomes(fields)[i] != "";
      var r :| 0 <= r < |fields[i].rules| && fields[i].rules[r](fields[i].value) != "";
    }
  }

  /** A field's outcome does not depend on the other fields: replacing field j
      changes no other outcome. */
  lemma OutcomesIndependent(fields: seq<Field>, j: nat, replacement: Field)
    requires j < |fields|
    ensures forall i | 0 <= i < |fields| && i != j :: Outcomes(fields[j := replacement])[i] == Outcomes(fields)[i]
    ensures Outcomes(fields[j := replacement])[j] == Outcome(replacement)
  {
  }

  /** When exactly field k fails, the outcomes are non-empty exactly at k and the
      form is not valid. */
  lemma SingleInvalidField(fields: seq<Field>, k: nat)
    requires k < |fields| && Outcome(fields[k]) != ""
    requires forall i | 0 <= i < |fields| && i != k :: Outcome(fields[i]) == ""
    ensures !FormIsValid(fields)
    ensures forall i | 0 <= i < |fields| :: Outcomes(fields)[i] != "" <==> i == k
  {
  }

  /** Fields [valid, invalid, valid]: only the middle outcome is a message, and
      the last field is still evaluated. */
  lemma ValidInvalidValid()
    ensures var fields := [Field("a", [IsRequired]), Field("", [IsRequired]), Field("b", [IsRequired, Max(1)])];
      && Outcomes(fields) == ["", RequiredMessage, ""]
      && !FormIsValid(fields)
  {
    var fields := [Field("a", [IsRequired]), Field("", [IsRequired]), Field("b", [IsRequired, Max(1)])];
    FirstFailureAt("", [IsRequired], 0);
    assert Outcomes(fields)[1] == RequiredMessage;
  }
}
