# Phone mask and form validation, modelled in Dafny

This project models the browser-side utility layer of a small web page: the
phone-number mask and the form validation and submission helpers in
`src/assets/js/utils.ts`. The DOM is replaced by immutable records and the
handlers by pure functions over them.

- **Phone mask** (`phone_mask.dfy`, module `PhoneMask`). Initialisation moves
  a phone field's `name` onto a new hidden input whose id is
  `<prefix>-<hex time>`. The input handler does four things:
  - keeps the first ten digits of the typed text;
  - shows them as `(DDD) DDD-DDDD`;
  - writes the bare digits into the hidden input once all ten are present;
  - puts the cursor back at the same distance from the end of the text.
  The document is reduced to the hidden inputs, in tree order.
  `getElementById` returns the first one with the requested id.
- **Validation** (`validation.dfy`, module `Validation`):
  - the stricter e-mail pattern `^[\w-\.]+@([\w-]+\.)+[\w-]{2,4}$`, as a split
    predicate: one `@`, a local part, dot-separated labels, and a final label
    of two to four characters;
  - the custom error it forces or clears;
  - the message of the first set validity flag: table entry, browser text,
    or the e-mail override;
  - the `data-error-message` / `invalid-field` annotation on the field's
    parent.
- **Submission** (`submission.dfy`, module `Submission`):
  - `getInputsFromForm`;
  - the gating of `handleFormSubmission`: every failing input is annotated,
    and the network path is taken exactly when none fails;
  - the request shape of `submitForm`: a rejection without an action, the
    query for `GET`, the body otherwise;
  - the submit button going idle → loading and disabled → settled.
- **Support** (`text.dfy`, `nullable.dfy`): `\d` and `\w`, `trim`,
  ASCII `toUpperCase`, split/join, `Number.prototype.toString(16)`, and
  `Option`/`Result`.

Three behaviours of the code are worth stating plainly:
- The name guard of `initMaskedPhoneInput` (utils.ts:28) returns early
  exactly when the trimmed name is missing or empty. Any other name is moved
  onto the hidden input (`InitMaskedPhoneInput`).
- The page script (`src/index.ts:17-23`) attaches the input handler whether
  or not initialisation ran, so a phone field without a name is still
  masked. A complete number then finds no hidden input, and the handler
  returns before setting the cursor (`UninitialisedFieldStillMasked`).
- A valid element reaches the empty message through the `valid` key.
  `for...in` over a `ValidityState` reaches `valid`, which is set, and the
  message is then `validationMessage`, which is empty for an element with
  no problem. Line 202 is reached only when no enumerated key is set
  (`ValidFieldHasNoMessage`).

## Model

| member | source | states |
|---|---|---|
| Text.DigitsOf | src/assets/js/utils.ts:62 | `replace(/\D/g, '')` yields only ASCII digits and is never longer than its input |
| Text.DigitsOfAppend | src/assets/js/utils.ts:62 | the digits of a concatenation are the digits of each part, in order |
| Text.DigitsOfAllDigits | src/assets/js/utils.ts:62 | a digits-only string passes through the digit filter unchanged |
| Text.DigitsOfNoDigits | src/assets/js/utils.ts:62 | a string without digits contributes nothing |
| Text.Trim | src/assets/js/utils.ts:24 | `trim()` returns the part of the name between an all-white-space head and an all-white-space tail, and that part neither starts nor ends with ECMAScript white space, so exactly the surrounding white space is removed |
| Text.TrimEmptyIffBlank | src/assets/js/utils.ts:24 | the trimmed name is empty exactly when the name is all white space |
| Text.TrimUnchanged | src/assets/js/utils.ts:24 | a name without surrounding white space is kept as is |
| Text.TrimIdempotent | src/assets/js/utils.ts:24 | trimming a trimmed name changes nothing |
| Text.AsciiUpper | src/assets/js/utils.ts:149 | `toUpperCase()` keeps the length and upper-cases each ASCII letter in place |
| Text.HexOf | src/assets/js/utils.ts:23 | `toString(16)` of the time is non-empty lower-case hexadecimal with no leading zero unless the time is 0 |
| Text.HexRoundTrip | src/assets/js/utils.ts:23 | reading the hexadecimal suffix back gives the time it was made from |
| Text.HexOfInjective | src/assets/js/utils.ts:23 | different times give different suffixes |
| PhoneMask.DigitBuffer | src/assets/js/utils.ts:62-63 | the buffer is all digits, holds min(10, number of digits) characters, and is the first digits of the value in their original order |
| PhoneMask.ExtraDigitsIgnored | src/assets/js/utils.ts:62 | once ten digits are typed, anything after them leaves the buffer unchanged |
| PhoneMask.DigitBufferOfDigits | src/assets/js/utils.ts:62 | a buffer of at most ten digits is its own buffer |
| PhoneMask.Mask | src/assets/js/utils.ts:66-81 | the mask depends only on the digit count n: `""`; `(` + d; `(ddd) ` + rest; `(ddd) ddd-` + rest; its length is n, n+1, n+3 or n+4, and at most 14 |
| PhoneMask.MaskRoundTrip | src/assets/js/utils.ts:62-81 | removing the non-digits from the mask gives back the digit buffer |
| PhoneMask.MaskInjective | src/assets/js/utils.ts:66-81 | different digit buffers are displayed differently |
| PhoneMask.MaskIdempotent | src/assets/js/utils.ts:62-81 | masking the masked text again reproduces it |
| PhoneMask.MaskCompleteExample | src/assets/js/utils.ts:66-81 | the digits 5551234567 are displayed as `(555) 123-4567` |
| PhoneMask.HiddenId | src/assets/js/utils.ts:38 | the id written at initialisation and read at line 92 is the prefix, `-`, then the stored suffix, or `undefined` when the field has none |
| PhoneMask.HiddenIdInjective | src/assets/js/utils.ts:38 | under one prefix, different stored suffixes give different ids |
| PhoneMask.FindById | src/assets/js/utils.ts:92 | `getElementById` returns the first hidden input with the id, or nothing when none has it |
| PhoneMask.FindBySameIds | src/assets/js/utils.ts:92 | the lookup depends only on the ids, so writing a value does not change what is found next time |
| PhoneMask.HandleInputPhoneField | src/assets/js/utils.ts:55-106 | the field shows the mask of the buffer, whose digits are the buffer. Hidden inputs keep their ids and names. The found hidden input's value becomes the buffer iff there are exactly 10 digits; all other values stay. No cursor is set iff 10 digits and no hidden input; otherwise the distance from the end, with a null selection read as 0, is kept |
| PhoneMask.HandleInputIdempotent | src/assets/js/utils.ts:62-105 | re-running the handler on its own output keeps the text and the hidden inputs, and leaves the cursor where it is |
| PhoneMask.InitMaskedPhoneInput | src/assets/js/utils.ts:20-46 | a missing or blank name changes nothing. Otherwise the field loses its name and carries the hex suffix, and exactly one hidden input is added. That input is named with the trimmed name, is empty, and has the id the handler will look up |
| PhoneMask.InitThenCompleteFillsOwnHidden | src/assets/js/utils.ts:20-106 | after initialisation, with no earlier input using the id, a complete number fills exactly the new hidden input and sets the cursor |
| PhoneMask.UninitialisedFieldStillMasked | src/assets/js/utils.ts:90-105 | a field that was never initialised is still masked. It changes no hidden input, and sets no cursor exactly when the number is complete |
| PhoneMask.SameMillisecondFillsWrongHidden | src/assets/js/utils.ts:21-23 | two fields initialised in the same millisecond share an id. A complete number typed into the second fills the first field's hidden input, and the second's stays empty |
| PhoneMask.StampedIdsDistinct | src/assets/js/utils.ts:21-23 | ids that end with their own position in hex are pairwise distinct |
| PhoneMask.InitMaskedPhoneInputUnique | src/assets/js/utils.ts:21-45 | corrected initialisation keeps all hidden ids distinct, with otherwise the same effect as the original |
| PhoneMask.UniqueInitThenCompleteFillsOwnHidden | src/assets/js/utils.ts:21-100 | with the corrected suffix, a complete number always fills the field's own hidden input |
| Validation.WithCustomError | src/assets/js/utils.ts:181-185 | `setCustomValidity` sets `customError` to whether the message is non-empty and `valid` to whether no other flag is set; keys and other flags are unchanged |
| Validation.CheckValidity | src/assets/js/utils.ts:123 | `checkValidity()` holds iff the element is barred from constraint validation (`readonly`, `disabled`, `hidden`) or no flag other than `valid` is set, which is the value `setCustomValidity` gives `valid` (`WithCustomError`) |
| Validation.SetCustomValidity | src/assets/js/utils.ts:181-185 | the custom message is stored and the barred state kept. A barred element keeps passing `checkValidity()`. For any other element, a non-empty message makes it fail when it has a `customError` flag, and the empty one leaves it failing exactly when a native constraint fails |
| Validation.ValidationMessage | src/assets/js/utils.ts:190 | `validationMessage` is `""` for an element barred from constraint validation. Otherwise it is the custom message while one is set, `""` for an element with no problem, and else the browser's text for the failed native constraint |
| Validation.WithCustomErrorIdempotent | src/assets/js/utils.ts:181-185 | setting the same custom message twice equals setting it once |
| Validation.IsEmailAddress | src/assets/js/utils.ts:178 | the value matches `^[\w-\.]+@([\w-]+\.)+[\w-]{2,4}$`: one `@`, a local part of word characters, `-` and `.`, then two or more dot-separated labels, the last of two to four characters; characterised in both directions by `EmailFromParts` and `EmailToParts` |
| Validation.DomainFromLabels | src/assets/js/utils.ts:178 | labels and a 2-4 character final label joined by dots form a domain of the pattern |
| Validation.EmailOfParts | src/assets/js/utils.ts:178 | a local part, `@` and such a domain match the pattern |
| Validation.EmailFromParts | src/assets/js/utils.ts:178 | every composition local@label.….tld with the pattern's character classes matches |
| Validation.EmailToParts | src/assets/js/utils.ts:178 | every matching value is such a composition: one `@`, a local part, labels and a 2-4 character final label |
| Validation.NotAnEmailExample | src/assets/js/utils.ts:178 | `not-an-email` does not match |
| Validation.ValidEmailExample | src/assets/js/utils.ts:178 | `jo@mail.org` matches |
| Validation.ShortTopLevelExample | src/assets/js/utils.ts:178 | `a@b.c` does not match, because the final label is too short |
| Validation.MessageFor | src/assets/js/utils.ts:190-195 | `typeMismatch` on an `email` field gives the e-mail message. Any other key in the table gives its entry. A key outside the table gives the browser text, so the message is non-empty whenever that text is |
| Validation.FirstMessage | src/assets/js/utils.ts:187-202 | no set flag gives `""`; otherwise the message of the first set flag in enumeration order |
| Validation.FirstMessageIsKnown | src/assets/js/utils.ts:187-202 | the message is a table entry, the e-mail message, the browser's text or `""` |
| Validation.CustomValidityFor | src/assets/js/utils.ts:181-185 | the custom error is "Please, provide a valid email address" exactly for an `email` field whose value fails the pattern, and empty otherwise |
| Validation.GetValidationMessage | src/assets/js/utils.ts:176-203 | the element keeps its type and value and carries the custom error the stricter check calls for. With no flag set in the updated validity the message is `""`. Otherwise it is the message of the first set flag, with `validationMessage` read after the update. It is always a table entry, the e-mail message, the browser's native text or `""` |
| Validation.FailingEmailHasMessage | src/assets/js/utils.ts:178-198 | on an element that takes part in validation, an `email` value failing the pattern leaves the element invalid with the e-mail custom message, and always resolves to a non-empty message |
| Validation.RejectedEmailMessage | src/assets/js/utils.ts:181-197 | on an element that takes part in validation, an `email` value failing the pattern, with no native constraint failing, resolves to exactly "Please, provide a valid email address" |
| Validation.FailingFieldHasMessage | src/assets/js/utils.ts:187-197 | an element that fails after the update resolves to a non-empty message whenever the browser has text for its native failures |
| Validation.OnlyValidFlagHasNoMessage | src/assets/js/utils.ts:188-202 | when only `valid` and `customError` can be set (neither is in the table) and the browser text is empty, the message is `""` |
| Validation.BarredFieldHasNoMessage | src/assets/js/utils.ts:176-203 | an element barred from constraint validation with no native problem passes and resolves to `""`, even when the pattern rejects its e-mail value |
| Validation.ValidFieldHasNoMessage | src/assets/js/utils.ts:180-202 | a field with no native problem and an acceptable e-mail value clears its custom error, passes `checkValidity`, and resolves to `""` |
| Validation.ResolveTwice | src/assets/js/utils.ts:176-203 | resolving the message of an element already resolved returns the same message and element |
| Validation.NativeFlagFirst | src/assets/js/utils.ts:181-197 | a native flag that is the first set one, with no `customError` flag before it (the browser lists `customError` after every native flag), stays first after the custom error is forced or cleared, and gives that flag's message |
| Validation.RequiredFieldMessage | src/assets/js/utils.ts:187-197 | `valueMissing` set, with no earlier flag set and no `customError` flag before it, gives "This field is required" |
| Validation.EmailTypeMismatchMessage | src/assets/js/utils.ts:190-195 | `typeMismatch` set on an `email` field, under the same conditions, gives the e-mail message, not the table's |
| Validation.ValidateInput | src/assets/js/utils.ts:211-225 | the element's custom validity is updated even without a parent. A parent is kept or absent as before. The parent's error message becomes the resolved message, and it carries `invalid-field` iff that message is non-empty. Its other classes are unchanged |
| Validation.ValidateInputIdempotent | src/assets/js/utils.ts:211-225 | validating twice in a row (two blurs) equals validating once |
| Validation.RejectedEmailMarksContainer | src/assets/js/utils.ts:211-225 | leaving an `email` field that takes part in validation and whose value fails the pattern marks its container `invalid-field` with a non-empty message |
| Validation.BarredFieldLeftClean | src/assets/js/utils.ts:211-225 | leaving a barred field with no native problem writes `""` on its container and removes `invalid-field`, whatever its value |
| Submission.GetInputsFromForm | src/assets/js/utils.ts:233-235 | the result holds exactly the form's input controls: every input control is in it and nothing else is |
| Submission.GetInputsAppend | src/assets/js/utils.ts:233-235 | the filter keeps document order: inputs of consecutive groups are concatenated |
| Submission.GetInputsAllInputs | src/assets/js/utils.ts:233-235 | controls that are all inputs are returned one for one |
| Submission.AnnotateField | src/assets/js/utils.ts:123-126 | a passing input is left exactly as it was. A failing one gets the updated element, and its container, if any, gets the message it resolves to |
| Submission.Annotate | src/assets/js/utils.ts:122-127 | every control is visited once, in place |
| Submission.AnnotatedInputs | src/assets/js/utils.ts:120-127 | after the loop the inputs are the old ones, with exactly the failing ones run through `validateInput` |
| Submission.AnnotateAllPass | src/assets/js/utils.ts:122-127 | when every input passes, the loop changes nothing |
| Submission.IsGetIff | src/assets/js/utils.ts:149-161 | the method is treated as `GET` iff it is `get` in any letter case |
| Submission.SubmitForm | src/assets/js/utils.ts:146-168 | no action means a rejection with the fixed message. Otherwise the request has the upper-cased method. For `GET` the URL is action + `?` with the data as query and no body; for anything else, the action URL with the data as body |
| Submission.StartLoading | src/assets/js/utils.ts:133-134 | submission start adds `loading` and sets `disabled`, keeping the other classes and the text |
| Submission.Settle | src/assets/js/utils.ts:139-142 | completion removes `loading`, sets the text to "Submitted" and leaves `disabled` as it was |
| Submission.HandleFormSubmission | src/assets/js/utils.ts:113-144 | the default is always prevented and every failing input annotated. The attempt is blocked iff some input fails. A missing submitter throws before sending. Otherwise the request is `submitForm`'s, and the button ends without `loading`, disabled, reading "Submitted" |
| Submission.EmptyActionStillReportsSubmitted | src/assets/js/utils.ts:136-153 | a form without an action is rejected, yet the button ends disabled and reading "Submitted" |
| Submission.BlockedSubmissionAnnotates | src/assets/js/utils.ts:120-127 | on submission a passing input is untouched, and a failing input's parent gets the message it resolves to |
| Submission.BarredInputIsLeftAlone | src/assets/js/utils.ts:120-127 | a barred input passes `checkValidity()`, so submission leaves it exactly as it was |
| Submission.BarredInputsNeverBlock | src/assets/js/utils.ts:120-127 | a form whose inputs are all barred is never blocked and is left unchanged |
| Submission.StaleCustomErrorBlocksSilently | src/assets/js/utils.ts:122-125 | on a `novalidate` form, an `email` field fixed after its custom error was set still blocks the submission, yet its parent ends with no `invalid-field` class |
| Submission.RefreshControls | src/assets/js/utils.ts:181-185 | each input gets the custom error its current value calls for; other controls are unchanged |
| Submission.HandleFormSubmissionRefreshed | src/assets/js/utils.ts:113-144 | corrected handler: the default is prevented, and the attempt is blocked iff some input fails once its custom error is brought up to date |
| Submission.RefreshedInputsPass | src/assets/js/utils.ts:120-127 | after the refresh, every input passes iff no input fails the refreshed check |
| Submission.RefreshedBlockingFieldShowsError | src/assets/js/utils.ts:120-127 | under the corrected handler, every input that blocks the submission gets `invalid-field` on its container, given browser text for native failures |
| Submission.RefreshedStaleFieldPasses | src/assets/js/utils.ts:122-125 | under the corrected handler, the fixed `email` field of the stale case does not block |

## Findings

| source | as written | input that shows it | evidently intended | confidence | as-written member | corrected member |
|---|---|---|---|---|---|---|
| src/assets/js/utils.ts:21-23 | the hidden input's id suffix is `Date.now().toString(16)` alone | two phone fields initialised in the same millisecond, as the page script's synchronous loop over all phone fields does | a distinct hidden input id per phone field ("an unique id", line 21), so each field's digits reach its own hidden input | high; not executed | PhoneMask.SameMillisecondFillsWrongHidden | PhoneMask.InitMaskedPhoneInputUnique |
| src/assets/js/utils.ts:122-125 | `checkValidity()` is asked before the stricter e-mail check refreshes the custom error, which happens only inside `validateInput` | on a form with `novalidate`, an `email` field left as `a@b` (the blur sets the custom error), corrected to `a@b.org`, then submitted with Enter so no blur runs | a submission is held back only by a field that shows its error | medium; not executed | Submission.StaleCustomErrorBlocksSilently | Submission.HandleFormSubmissionRefreshed |

The corrected suffix appends `-` and the new hidden input's position, in
hexadecimal. `PhoneMask.UniqueInitThenCompleteFillsOwnHidden` proves that
typing a complete number then always fills the field's own hidden input.

The second finding needs a form with `novalidate`, or a submitter with
`formnovalidate`. Without either, the browser's own validation runs before
the `submit` event and stops the submission itself, showing the stale
custom message in its own bubble. The handler then never runs.

The corrected submission refreshes every input's custom error before asking
`checkValidity()`. `Submission.RefreshedBlockingFieldShowsError` proves that
every input blocking it then shows `invalid-field`.
`Submission.RefreshedStaleFieldPasses` proves that the fixed e-mail field no
longer blocks.

## Left out

- `src/index.ts` (listener wiring, `querySelectorAll`): it only calls the modelled functions.
- `Date.now()`: the time is a parameter (`now`), so the suffix is deterministic in the model.
- DOM operations: records replace `createElement`, `insertAdjacentElement`, `dataset`, `classList` and `parentElement`.
- Other elements in the document: the page holds only the hidden inputs initialisation creates. An unrelated element with a colliding id is not modelled.
- Hidden-input position: a new hidden input is appended, which matches fields initialised in document order.
- HandleInputPhoneField: the cursor is the raw number the code computes, which can be negative or past the end. How `setSelectionRange` converts and clamps it is browser behaviour.
- String lengths count Unicode scalar values. JavaScript counts UTF-16 code units, so the two differ for characters outside the Basic Multilingual Plane.
- Text.AsciiUpper: upper-cases ASCII letters only. `form.method` only yields `get`, `post` or `dialog`, for which this is exact.
- `FormData` and `URLSearchParams`: the form's entries are an input, and the query string is not percent-encoded in the model.
- `fetch`, promises, `.then`/`.catch`/`.finally` scheduling, `console` logging: asynchronous I/O. Only the request shape and the button's final state are modelled.
- The browser's `ValidityState` key order and its own text for a failed native constraint are inputs. `validationMessage` is derived from them and the custom message (`Validation.ValidationMessage`).
- Validation.FailingFieldHasMessage: needs the browser to have non-empty text for each failed native constraint, because that text is an input here.
- `checkValidity()` firing `invalid` events is not modelled.
- The browser's interactive validation before the `submit` event is not modelled. The handler is taken to run, as on a form with `novalidate`. Without `novalidate` (or `formnovalidate` on the submitter), a failing input stops the submission before the handler, and the handler's blocked branch cannot be reached.
- Why an element is barred from constraint validation (`readonly`, `disabled`, `type=hidden`, a `datalist` ancestor) is not modelled; `barred` is an input of the element.
- Each input has its own parent record. Inputs sharing one parent element, where the later annotation overwrites the earlier, are not modelled.
- Submission.Settle: `textContent` on an `<input>` submitter does not change its visible caption. The model records the text either way.
- `form.action` is taken as read. Browsers resolve a missing or empty `action` attribute to the document's URL, so the empty-action rejection needs an action that reads as empty.
