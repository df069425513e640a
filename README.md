# ValidForm validation core in Dafny

This project models the validation engine of a registration form written in
JavaScript (`index.js`). It has three parts:

- **Rule library.** A rule maps a field value to `""` (valid) or to a failure message.
  There are simple rules (`isRequired`, `isEmail`, `isName`) and rule factories that
  close over a parameter (`min(n)`, `max(n)`, `isSame(ref, label1, label2)`).
  The two fixed regular expressions `REG_EMAIL` and `REG_NAME` are written as
  hand-made recognisers over `seq<char>`. Each recogniser is proved equal to an
  independent description of the strings its pattern accepts.
- **Validation runner** `isValid`. It applies an ordered list of rules to one value,
  stops at the first non-empty message and returns it, or returns `""`. The runner
  is modelled twice: as a pure function `FirstFailure`, and as a method `IsValid`
  with the source's loop and early return. The method is proved equal to the function.
- **Form aggregation** in the submit handler. Every field is run, whatever the
  earlier fields returned. The outcomes are kept in field order. The form is valid
  when every outcome is `""` (`errorMsg.every(item => !item)`). The handler's seven
  fields and their rule lists are modelled with page reads replaced by plain inputs.
  An absent radio or checkbox becomes `""`.

Modules, one file each: `CharClasses` (the character classes of both patterns),
`Decimal` (the decimal rendering used by the `Min is ${num}` message), `Email`,
`Name`, `Rules`, `Runner`, `Form` and `Signup` (the submit handler's fields).

Where the code and its intended design differ, the model follows the code:

- Name words may be separated by any one JavaScript `\s` character (tab, newline,
  no-break space, ...), not only by a space.
- The name letter ranges U+00C0–U+024F include the two non-letters `×` (U+00D7)
  and `÷` (U+00F7), and the model accepts them as the pattern does.
- `isRequired` does not trim, so a whitespace-only value passes.

## Model

| member | source | states |
|---|---|---|
| CharClasses.NameClassesDisjoint | index.js:12-13 | no name letter is `\s` whitespace, and a digit is neither, so a name can be split into words greedily |
| CharClasses.IsEmailWordChar | index.js:11 | the e-mail word class `[a-zA-Z\d.\-_]`: an ASCII letter, an ASCII digit, `.`, `-` or `_` (a class definition; what the pattern built from it accepts is stated by Email.MatchEmailIff) |
| CharClasses.IsNameLetter | index.js:13 | the name letter class: an ASCII letter or a code point in U+00C0..U+024F or U+1E00..U+1EFF (a class definition; its disjointness from `\s` and the digits is stated by NameClassesDisjoint) |
| CharClasses.IsJsSpace | index.js:13 | JavaScript's `\s`: tab, line feed, U+000B, U+000C, carriage return, space, U+00A0, U+1680, U+2000..U+200A, U+2028, U+2029, U+202F, U+205F, U+3000 and U+FEFF; no such character is a name letter or a digit |
| Decimal.NatToString | index.js:23 | the rendered bound is a non-empty string of digits that starts with `0` only for zero, and then is exactly `0` (no leading zeros) |
| Decimal.DecimalRoundTrip | index.js:23 | reading the rendered numeral back gives the bound itself |
| Email.MatchLocalIff | index.js:11 | the local-part recogniser (split at the first `+`) accepts exactly a word of `[a-zA-Z\d.\-_]`, optionally followed by `+` and one or more digits |
| Email.MatchEmail | index.js:10-11 | the recogniser that `REG_EMAIL.test` is modelled by: split at the first `@`, then at the last `.` after it; any string it accepts has at least five characters and ends with an ASCII letter |
| Email.MatchEmailSound | index.js:10-11 | every string the recogniser accepts is in the pattern's language: local part, `@`, a 1–65 character domain, `.`, 1–5 ASCII letters at the end |
| Email.MatchEmailComplete | index.js:10-11 | every split of a string into local part, `@`, domain, `.` and top-level part is found by the recogniser |
| Email.MatchEmailIff | index.js:10-11 | the e-mail recogniser accepts a string exactly when it matches the pattern |
| Email.EmailSingleAt | index.js:10-11 | an accepted address contains exactly one `@` |
| Name.MatchNameIff | index.js:12-13 | the name recogniser accepts exactly the non-empty strings of name letters and `\s` that start and end with a letter and have no two whitespace characters in a row |
| Name.MatchName | index.js:12-13 | the recogniser that `REG_NAME.test` is modelled by: a longest letter run, then either the end or one `\s` and a name again; any string it accepts is non-empty and starts and ends with a name letter |
| Name.NameRejectsDigit | index.js:12-13 | a string containing a digit never matches the name pattern |
| Rules.IsRequired | index.js:19 | the value passes exactly when it is not `""`; otherwise the message is "That field is required" |
| Rules.RequiredSamples | index.js:19 | `""` fails, while `"x"` and a single space pass |
| Rules.IsEmail | index.js:20 | the value passes exactly when it is in the e-mail pattern's language; otherwise the message is "Email is not valid" |
| Rules.EmailSampleAccepted | index.js:20 | `a@b.co` passes |
| Rules.EmailSamplePlusAccepted | index.js:20 | `a+1@b.com` passes |
| Rules.EmailSampleRejected | index.js:20 | `a@@b` fails with "Email is not valid" |
| Rules.IsName | index.js:21 | the value passes exactly when it is a well-formed name; otherwise the message is "Name is not valid" |
| Rules.NameSampleAccepted | index.js:21 | `John Smith` passes |
| Rules.NameSampleVietnamese | index.js:21 | `Nguyễn Văn A` passes |
| Rules.NameSampleRejected | index.js:21 | `John3` fails with "Name is not valid" |
| Rules.Min | index.js:22-24 | the rule built from num passes a value exactly when it has at least num characters; otherwise the message is "Min is " followed by num in decimal |
| Rules.Max | index.js:25-27 | the rule built from num passes a value exactly when it has at most num characters; otherwise the message is "Max is " followed by num in decimal |
| Rules.BoundMessagesNameBound | index.js:22-27 | a failure message of Min or Max starts with its prefix, and the digits after the prefix read back as the bound |
| Rules.LengthBoundsInclusive | index.js:22-27 | min(8) rejects 7 characters with "Min is 8" and accepts 8; max(30) accepts 30 and rejects 31 with "Max is 30" |
| Rules.IsSame | index.js:28-32 | the rule built from a reference value passes a value exactly when it equals that reference; otherwise the message is label1 + " is not same with " + label2 |
| Rules.SameSamples | index.js:28-32 | isSame("abc", "A", "B") passes "abc" and rejects "abx" with "A is not same with B" |
| Runner.FirstFailure | index.js:59-73 | the result is `""` exactly when every rule passes; otherwise it is the message of a rule all of whose predecessors passed |
| Runner.IsValid | index.js:59-73 | the loop with early return computes exactly FirstFailure |
| Runner.FirstFailureAt | index.js:63-69 | when rule k is the first to fail, its message is the result |
| Runner.FirstFailureAppend | index.js:63-72 | running a list that is split in two runs the first part, and consults the second part only when the first part reports no failure |
| Runner.LaterRulesNotConsulted | index.js:63-69 | replacing the rules after the first failing one by any other rules leaves the result unchanged |
| Runner.EarlierFailureWins | index.js:63-69 | if rules i < j both fail, the reported message comes from a rule at or before i, never from rule j's position |
| Runner.FirstFailureOfOne | index.js:63-72 | a one-rule list gives that rule's result |
| Runner.FirstFailureOfTwo | index.js:63-72 | for [ruleA, ruleB], ruleA's failure is reported even when ruleB fails too; ruleB decides only when ruleA passes |
| Runner.FirstFailureOfThree | index.js:63-72 | a three-rule list is consulted left to right and stops at the first failure |
| Runner.FirstFailureOfFour | index.js:63-72 | a four-rule list is consulted left to right and stops at the first failure |
| Form.Outcome | index.js:59-73 | a field's outcome is the runner's result on that field's own value and rule list (its meaning is Runner.FirstFailure's contract) |
| Form.Outcomes | index.js:98-160 | one outcome per field, in field order, each the runner's result on that field's own value and rules |
| Form.AllEmpty | index.js:162 | `every((item) => !item)`: every outcome is `""`, since a string is falsy exactly when it is empty |
| Form.FormIsValid | index.js:98-162 | the form is valid when every field's outcome is `""` (its meaning is stated by FormValidIff) |
| Form.FormValidIff | index.js:162 | the form is valid exactly when every rule of every field passes on that field's value |
| Form.OutcomesIndependent | index.js:98-160 | replacing one field changes no other field's outcome |
| Form.SingleInvalidField | index.js:98-162 | when only field k fails, the outcomes are non-empty exactly at k and the form is not valid |
| Form.ValidInvalidValid | index.js:98-162 | fields [valid, invalid, valid] give outcomes ["", "That field is required", ""] and a form that is not valid |
| Signup.OrEmpty | index.js:126 | an absent control gives `""`, a present one its value |
| Signup.SignupFields | index.js:98-160 | the handler builds seven field requests |
| Signup.EmailField | index.js:100-105 | the e-mail field: the e-mail value with [isRequired, isEmail] |
| Signup.NameField | index.js:108-113 | the name field: the name value with [isRequired, isName, max(50)] |
| Signup.GenderField | index.js:116-121 | the gender field: the gender value with [isRequired] |
| Signup.CountryField | index.js:124-130 | the country field: the checked country's value, or `""` when none is checked, with [isRequired] |
| Signup.PasswordField | index.js:133-138 | the password field: the password value with [isRequired, min(8), max(30)] |
| Signup.ConfirmedPasswordField | index.js:141-151 | the confirmation field: the confirmation value with [isRequired, min(8), max(30), isSame(password, "Password", "ConfirmedPassword")], the reference being the password as submitted |
| Signup.AgreeField | index.js:154-159 | the agreement field: the ticked checkbox's value, or `""` when it is not ticked, with [isRequired] |
| Signup.Accepted | index.js:162-166 | the handler's `isValidForm` on the seven fields (its meaning is stated by AcceptedIff) |
| Signup.EmailOutcome | index.js:99-105 | the e-mail field reports "That field is required" for `""`, "Email is not valid" for any other string outside the pattern, and `""` otherwise |
| Signup.NameOutcome | index.js:107-113 | the name field checks required, then the name pattern, then the maximum length, in that order |
| Signup.RequiredOutcome | index.js:115-121 | a field with only isRequired fails exactly on `""` |
| Signup.LengthWindowOutcome | index.js:132-138 | the password field reports required, then "Min is", then "Max is", in that order, and passes exactly inside the length window |
| Signup.ConfirmationOutcome | index.js:140-151 | the confirmation field checks required, minimum, maximum and then equality with the reference value |
| Signup.AcceptedFieldByField | index.js:98-162 | the handler accepts exactly when each of the seven outcomes is `""` |
| Signup.AcceptedIff | index.js:98-162 | a submission is accepted exactly when the e-mail matches its pattern, the name is well formed and at most 50 characters, gender, country and agreement are present and non-empty, the password has 8 to 30 characters and the confirmation equals the password |
| Signup.EmptyEmailReportsRequired | index.js:99-105 | an empty e-mail fails both of its rules, and the reported message is "That field is required" because that rule is listed first |
| Signup.ShortPasswordReportsMin | index.js:132-138 | a non-empty password shorter than 8 characters reports "Min is 8" |
| Signup.MismatchReported | index.js:140-151 | a confirmation of acceptable length that differs from the password reports "Password is not same with ConfirmedPassword" |

## Left out

- `createMsg` and `clearMsg` (index.js:41-50, 76-83) are left out. They only create and remove page elements and CSS classes, and do not affect any returned value.
- Runner.IsValid does not call `createMsg`. The message it returns is the value the source's `isValid` returns. Showing that message on the page is left out.
- The submit listener, the `document.querySelector` reads, `event.preventDefault` and `alert` (index.js:86-96, 163-166) are browser I/O. The values they read become fields of `Signup.Submission`. An unticked control becomes `None`.
- Min and Max count length as Dafny characters (Unicode scalar values). JavaScript's `length` counts UTF-16 code units, so a character outside the Basic Multilingual Plane counts once here and twice in the source.
- The regular expressions are not modelled as a general engine. Only the two fixed patterns are modelled, as recognisers. JavaScript matches a character outside the Basic Multilingual Plane as two surrogate code units. Neither unit is in any of the patterns' classes, so both the source and the model reject such strings.
- Min and Max take a `nat` bound rendered in plain decimal. JavaScript renders a Number of 10^21 or more in exponent form (`1e+21`) and holds integers above 2^53 inexactly; neither, nor the rendering of negative, fractional or non-numeric bounds, is modelled. The sign-up handler only uses the bounds 8, 30 and 50, where the plain decimal rendering is exact.
- IsSame uses Dafny sequence equality. JavaScript's loose `==` is the same thing when both sides are strings, as they always are in the handler. Coercion of non-string values is not modelled.
- Running a rule list twice on the same inputs gives the same result because every member is a pure function, so no separate lemma states it.
