# A verified model of a client-side sign-up form validator

The modelled program is the script `validate.js`. It validates a sign-up form with five fields:

- email
- country
- zip
- password
- password confirmation (`pass-conf`)

Each `check*` function trims its field's value and applies the field's rules in order. The first failing rule decides the outcome:

- On a failure, `showError` marks the input `invalid` and shows the rule's message.
- On a pass, `showSuccess` marks the input `valid` and clears the message.

The submit handler runs all five checks and combines their results. While the user types, a debounced input listener runs the one check whose element id is the event's target.

The model has seven modules, one per file:

- `Wrappers` holds `Option`.
- `JsText` holds `String.prototype.trim`, the only string method the script calls, with the ECMAScript white-space and line-terminator sets it and the regular expressions use. It also holds `Split`, `Join` and `LastIndexOf`, which are the email recogniser's own helpers and not operations of the script.
- `EmailPattern` models the anchored email regular expression (`isEmailValid`) twice:
  - as the pattern reads (`MatchesEmailPattern`, a ghost grammar over the pieces the regex matches);
  - as an executable recogniser (`IsEmailValid`), which splits at the last `@` and then splits the local part and the domain at dots.

  Lemmas prove that the two agree.
- `PasswordPattern` does the same for the lookahead pattern of `isPasswordSecure`. In that pattern `.` does not match a line terminator, so every lookahead sees only the first line.
- `FieldRules` turns each field's rule chain into an outcome function (`Pass`, or `Fail` with the exact message) and proves what each chain decides.
- `FormModel` is the stateful side:
  - each input element is a `FieldElement` object whose class set and message change in place;
  - `ShowError` and `ShowSuccess` remove one class and then add the other, as the script does;
  - the five check methods and `Submit` belong to the `Form` class.

  Every method is proved against the outcome functions of `FieldRules`.
- `LiveTrigger` models `debounce`, the id switch and the input listener:
  - `debounce` is a `Debouncer` class. It holds the captured `timeoutId` and the host's table of armed timers, and `clearTimeout`/`setTimeout` are written out as updates of that table.
  - The `switch` on `e.target.id` is `ValidatorFor` plus `Dispatch`.
  - The input listener is the `LiveValidation` class.

An over-long country (57 or more characters after trimming) fails with "Country must be a minimum of 4 letters long.", even though the length rule also has a maximum of 56. The model keeps this message exactly as written, and `LengthBoundaries` states it.

## Model

| member | source | states |
|---|---|---|
| FieldRules.IsRequired | validate.js:9 | a value is required-present exactly when it is non-empty |
| FieldRules.IsBetween | validate.js:11-12 | the length test holds exactly when min <= length <= max, both bounds inclusive |
| JsText.StartOfText | validate.js:73 | the leading white space ends at the first non-white character, or at the end of a blank value |
| JsText.EndOfText | validate.js:73 | the trailing white space starts just after the last non-white character, or at 0 for a blank value |
| JsText.Trim | validate.js:73 | trim() is empty exactly when the value is all white space; otherwise it neither starts nor ends with white space |
| JsText.TrimAt | validate.js:73 | trim() is exactly the slice between the leading and the trailing white space |
| JsText.TrimIdempotent | validate.js:73 | trimming a trimmed value changes nothing |
| JsText.Split | validate.js:16 | splitting at a character gives pieces free of it that join back to the input |
| JsText.SplitWithoutSeparator | validate.js:16 | a string without the separator splits into itself alone |
| JsText.SplitAfterPiece | validate.js:16 | a piece, the separator and a tail split into the piece followed by the tail's pieces |
| JsText.SplitJoin | validate.js:16 | splitting undoes joining when no piece contains the separator |
| JsText.JoinExcludes | validate.js:16 | a character in no piece and other than the separator is not in the join |
| JsText.JoinOfNonEmptyParts | validate.js:16 | a dot-join of non-empty pieces neither starts nor ends with a dot and has no doubled dot |
| JsText.LastIndexBefore | validate.js:16 | scanning backwards below a bound finds the last occurrence below it, or reports that there is none |
| JsText.LastIndexOf | validate.js:16 | the result is none exactly when the character is absent; otherwise it is an occurrence with none after it |
| JsText.LastIndexOfUnique | validate.js:16 | an occurrence with no later occurrence is the one found |
| JsText.LastIndexOfIsLast | validate.js:16 | the search finds position i exactly when i holds the character and no later position does |
| EmailPattern.MatchesEmailPattern | validate.js:16 | a string the anchored pattern matches contains `@` |
| EmailPattern.IsEmailValid | validate.js:14-18 | isEmailValid accepts exactly the strings that split, at an `@` with no `@` after it, into a local part and a domain |
| EmailPattern.DotAtomAgrees | validate.js:16 | the local-part recogniser accepts exactly the dot-separated non-empty atoms of the pattern |
| EmailPattern.HostnameAgrees | validate.js:16 | the host recogniser accepts exactly one or more `[a-zA-Z0-9-]+.` labels followed by at least two letters |
| EmailPattern.AddressLiteralAgrees | validate.js:16 | the bracket recogniser accepts exactly four dot-separated groups of one to three digits in brackets |
| EmailPattern.LocalPartAgrees | validate.js:16 | the local-part recogniser accepts exactly the atoms form or the quoted form of the pattern |
| EmailPattern.DomainAgrees | validate.js:16 | the domain recogniser accepts exactly the bracket form or the host form of the pattern |
| EmailPattern.DotAtomHasNoAt | validate.js:16 | an unquoted local part never contains `@` |
| EmailPattern.DomainHasNoAt | validate.js:16 | no domain the pattern accepts contains `@`, so the structural `@` is the last one |
| EmailPattern.RecogniserIsSound | validate.js:14-18 | every address the recogniser accepts matches the pattern |
| EmailPattern.RecogniserIsComplete | validate.js:14-18 | every address matching the pattern is accepted by the recogniser |
| EmailPattern.IsEmailValidMatchesPattern | validate.js:14-18 | isEmailValid accepts exactly the strings the anchored pattern matches |
| EmailPattern.AtomIsLocalPart | validate.js:16 | a single atom is a local part and has no `@` |
| EmailPattern.AcceptsAtomAtDomain | validate.js:14-18 | any atom, `@` and a domain is accepted |
| EmailPattern.LabelDotTopIsDomain | validate.js:16 | a label, a dot and a top label of at least two letters form a domain |
| EmailPattern.BracketedGroupsIsDomain | validate.js:16 | four digit groups of one to three digits, joined by dots and bracketed, form a domain |
| EmailPattern.UnquotedAddressHasOneAt | validate.js:14-18 | an accepted address with an unquoted local part has exactly one `@`, a non-empty local part, no leading, trailing or doubled dot before it |
| EmailPattern.AcceptsHostnameAddress | validate.js:14-18 | `user@example.com` is accepted |
| EmailPattern.AcceptsAddressLiteral | validate.js:14-18 | `user@[192.168.1.1]` is accepted |
| EmailPattern.RejectsNoAt | validate.js:14-18 | `plainaddress` is rejected |
| EmailPattern.RejectsNoTopLabel | validate.js:14-18 | `user@domain` is rejected |
| EmailPattern.RejectsDoubleAt | validate.js:14-18 | `user@@example.com` is rejected |
| PasswordPattern.LookaheadFinds | validate.js:22 | a class lookahead succeeds only on a string containing a character of that class |
| PasswordPattern.MatchesPasswordPattern | validate.js:22 | a string the lookahead pattern matches has at least 8 characters and a character of every class |
| PasswordPattern.IsPasswordSecure | validate.js:20-25 | an accepted password has at least 8 characters and a character of every class |
| PasswordPattern.FirstLine | validate.js:22 | the part `.` can reach is the longest prefix without a line terminator |
| PasswordPattern.ClassesIn | validate.js:22 | a class is collected exactly when some character of the string belongs to it |
| PasswordPattern.LookaheadSeesFirstLine | validate.js:22 | a class lookahead succeeds exactly when the first line has a character of that class |
| PasswordPattern.FirstLineCharIsFound | validate.js:22 | a class character on the first line satisfies that class's lookahead |
| PasswordPattern.FoundCharIsOnFirstLine | validate.js:22 | a class lookahead only succeeds on a character of the first line |
| PasswordPattern.LengthSeesFirstLine | validate.js:22 | the length lookahead succeeds exactly when the first line has at least 8 characters |
| PasswordPattern.IsPasswordSecureMatchesPattern | validate.js:20-25 | isPasswordSecure accepts exactly the strings the lookahead pattern matches |
| PasswordPattern.SingleLinePassword | validate.js:20-25 | a single-line password is accepted exactly when it has at least 8 characters and a lower-case letter, an upper-case letter, a digit and one of `!@#$%^&*`, other characters allowed |
| PasswordPattern.EveryClassRequired | validate.js:22 | the set of classes the recogniser requires lists every character class, one per lookahead |
| PasswordPattern.PasswordOrderIrrelevant | validate.js:20-25 | rearranging a single-line password does not change whether it is accepted |
| PasswordPattern.AcceptsAllClasses | validate.js:20-25 | `Abcdef1!` is accepted |
| PasswordPattern.RejectsTooShort | validate.js:20-25 | `Abc1!` is rejected |
| PasswordPattern.RejectsWithoutUpper | validate.js:20-25 | `abcdefg1` is rejected |
| PasswordPattern.RejectsWithoutLower | validate.js:20-25 | `ABCDEFG1!` is rejected |
| FieldRules.EmailOutcome | validate.js:70-85 | the email passes exactly when its trimmed value is a valid address; a blank value gets the "enter an email" message and only a non-blank invalid one gets "Not a valid email address." |
| FieldRules.CountryOutcome | validate.js:87-104 | the country passes exactly when its trimmed length is 4 to 56; blank gets "Please enter a country."; any other length gets the "minimum of 4" message |
| FieldRules.ZipOutcome | validate.js:106-123 | the zip passes exactly when its trimmed length is 5 to 10; blank gets the "enter a zip" message; any other length gets the "between 5 and 10" message |
| FieldRules.PasswordOutcome | validate.js:125-143 | the password passes exactly when its trimmed value is secure; blank gets "Please enter password."; only a non-blank insecure one gets the long rule message |
| FieldRules.PassConfOutcome | validate.js:145-161 | the confirmation passes exactly when it is not blank and its trimmed value equals the trimmed password; blank gets "Please enter the password again" whatever the password is; otherwise "Password does not match." |
| FieldRules.FirstFailureWins | validate.js:70-161 | for every field, the required message appears exactly when the value is blank, the rule message only when it is not, and no third message exists |
| FieldRules.SecurePasswordIsNotBlank | validate.js:20-25 | a secure password is never empty, so the required rule never masks the security rule on a secure value |
| FieldRules.FormPasses | validate.js:56-61 | the `&&` of the five check results holds exactly when every field passes |
| FieldRules.EmailFieldPasses | validate.js:70-85 | the email field passes exactly when its trimmed value is a valid address |
| FieldRules.PasswordFieldPasses | validate.js:125-143 | the password field passes exactly when its trimmed value is secure |
| FieldRules.PassConfFieldPasses | validate.js:145-161 | the confirmation field passes exactly when it is non-blank and equals the password after trimming |
| FieldRules.FormPassesExactly | validate.js:47-161 | the form passes exactly when the trimmed email is valid, the trimmed country length is 4 to 56, the trimmed zip length is 5 to 10, the trimmed password is secure and the trimmed confirmation equals it |
| FieldRules.PassingConfirmationIsSecure | validate.js:145-161 | on a passing form the trimmed confirmation is itself a secure password |
| FieldRules.LengthBoundaries | validate.js:90-97 | country lengths 4 and 56 pass and 3 and 57 fail with the "minimum of 4" message; zip lengths 5 and 10 pass and 4 and 11 fail |
| FieldRules.ConfirmationExamples | validate.js:145-161 | a confirmation with a trailing space matches, a shorter one does not, and an empty one reports the required message even for an empty password |
| FormModel.Shown | validate.js:27-45 | after showing an outcome the input has `valid` exactly on a pass, `invalid` exactly on a failure, and every other class as before |
| FormModel.FieldElement.SetValue | validate.js:73 | the user's edit replaces the element's value |
| FormModel.ShowError | validate.js:27-35 | the input loses `valid`, gains `invalid`, keeps its other classes and shows the message |
| FormModel.ShowSuccess | validate.js:37-45 | the input loses `invalid`, gains `valid`, keeps its other classes and its message is cleared |
| FieldRules.WithValue | validate.js:177-179 | typing into a field sets that field's value and leaves every other field's value as it was |
| FormModel.Form.Edit | validate.js:177-179 | the user's edit of one field changes the form's values exactly as WithValue says, and nothing else |
| FormModel.Form.ElementsDistinct | validate.js:1-5 | the five elements, having distinct ids, are distinct objects |
| FormModel.Form.CheckEmail | validate.js:70-85 | returns true exactly when the email outcome is a pass; only the email element's classes and message change, to show that outcome |
| FormModel.Form.CheckCountry | validate.js:87-104 | returns true exactly when the country outcome is a pass; only the country element changes, to show that outcome |
| FormModel.Form.CheckZip | validate.js:106-123 | returns true exactly when the zip outcome is a pass; only the zip element changes, to show that outcome |
| FormModel.Form.CheckPassword | validate.js:125-143 | returns true exactly when the password outcome is a pass; only the password element changes, to show that outcome |
| FormModel.Form.CheckPasswordConf | validate.js:145-161 | returns true exactly when the confirmation outcome, against the current password, is a pass; only the confirmation element changes |
| FormModel.Form.Submit | validate.js:47-68 | the form is valid exactly when all five fields pass, every field shows its own outcome even after an earlier failure, and no value changes |
| LiveTrigger.Debouncer.Notify | validate.js:166-174 | the previously armed timer is cancelled and exactly one timer is armed, with the latest arguments; nothing is called |
| LiveTrigger.Debouncer.Fire | validate.js:171-173 | the armed callback, if any, calls the wrapped function once with its arguments and nothing stays armed |
| LiveTrigger.ValidatorFor | validate.js:180-196 | the switch selects a field exactly when the target id is that field's id, and selects nothing for any other id |
| LiveTrigger.Dispatch | validate.js:179-197 | the selected field shows its outcome and every other field is left as it was |
| LiveTrigger.LiveValidation.OnInput | validate.js:177-179 | an input event re-arms the debouncer with the event's target id |
| LiveTrigger.LiveValidation.OnTimeout | validate.js:171-173 | when the delay elapses, the last pending event is dispatched once and only its field changes |
| LiveTrigger.Typed | validate.js:177-179 | after a sequence of edits the last edited field holds its last value, and a field never edited keeps its value |
| LiveTrigger.Burst | validate.js:163-179 | after a burst of input events on any fields, the values are those typed, nothing has been dispatched and the debouncer holds the last event's target |
| LiveTrigger.BurstThenTimeout | validate.js:163-198 | after a burst of input events on any fields and one timeout, the wrapped function has run once, on the last event's target; that field shows the outcome of its final value and no other field's classes or message change |

## Left out

- DOM lookups (`querySelector`, `parentElement`, the message paragraph found with `querySelector('p')`) and `addEventListener`: the form is a `Form` object holding its five elements, and each element holds its own message text.
- The event object is reduced to its target's id, the only part of it the listener reads.
- Timing: the 500 ms delay and real `setTimeout`/`clearTimeout` are not modelled. The host's timers are a table of armed handles with a counter for new handles, and the delay elapsing is the `Fire` step.
- `e.preventDefault()` and the empty branches of the submit handler have no observable effect and are not modelled.
- Lengths: `string` is a sequence of Unicode scalar values, whereas JavaScript's `length` counts UTF-16 code units. A country or zip with characters outside the Basic Multilingual Plane may be counted differently.
- PasswordPattern.IsPasswordSecure and PasswordPattern.LengthLookahead count characters, not UTF-16 code units. The password pattern has no `u` flag, so in JavaScript `(?=.{8,})` counts code units, and a character outside the Basic Multilingual Plane counts twice. For example, `Aa1!😀😀` is 8 code units and JavaScript accepts it; the model sees 6 characters, so `PasswordOutcome` is `Fail(PasswordWeak)`.
- White space: the white-space set used by `trim()` and by `\s` lists the space separators (category Zs) of the current Unicode version explicitly. A host with another Unicode version may differ.
- General regular expressions are not modelled. The two fixed patterns are written out as grammars and recognisers.
