/** Field validation: the stricter e-mail pattern, the resolution of a
    message from the element's validity flags, and the error annotation on
    the field's container.

    The browser's part is taken as given: the element's validity flags in
    the order a `for...in` loop visits them, and the browser's own text for
    a failed native constraint. The `validationMessage` read after
    `setCustomValidity` is derived from these and the custom message. */
module Validation {
  import opened Nullable
  import opened Text

  /** One entry of a `ValidityState`: a flag name and whether it is set. */
  datatype Flag = Flag(key: string, on: bool)

  /** A `ValidityState`, in enumeration order. */
  type Validity = seq<Flag>

  /** The message used for every e-mail problem. */
  const EmailMessage := "Please, provide a valid email address"

  /** The table of messages per flag (utils.ts `validationMessages`). */
  const Messages: map<string, string> := map[
    "valueMissing" := "This field is required",
    "typeMismatch" := "Please provide a valid value",
    "patternMismatch" := "Please provide a valid phone number",
    "tooShort" := "Name should have at least 2 characters long"]

  /** An `<input>` element as validation sees it. */
  datatype InputElement = InputElement(
    inputType: string,
    value: string,
    validity: Validity,
    customValidity: string,  // the message last given to `setCustomValidity`
    nativeMessage: string,   // the browser's own text for a failed native constraint
    barred: bool)            // barred from constraint validation: `readonly`, `disabled`, `hidden`

  // ---------------------------------------------------------------------
  // Validity flags
  // ---------------------------------------------------------------------

  /** Some flag other than `valid` is set. */
  predicate HasError(v: Validity) {
    exists k :: 0 <= k < |v| && v[k].key != "valid" && v[k].on
  }

  /** `checkValidity()`: the element is barred from constraint validation,
      or it has no problem. A barred element passes whatever its flags say. */
  predicate CheckValidity(el: InputElement) {
    el.barred || !HasError(el.validity)
  }

  /** The validity has a flag named `key`. */
  predicate HasKey(v: Validity, key: string) {
    exists k :: 0 <= k < |v| && v[k].key == key
  }

  /** No native constraint fails: every flag other than `valid` and
      `customError` is clear. */
  predicate NoNativeError(v: Validity) {
    forall k :: 0 <= k < |v| && v[k].key != "valid" && v[k].key != "customError" ==> !v[k].on
  }

  /** The browser explains every failed native constraint with some text. */
  predicate BrowserExplains(el: InputElement) {
    !NoNativeError(el.validity) ==> el.nativeMessage != ""
  }

  /** The validity flags after `setCustomValidity(message)`: `customError`
      becomes whether the message is non-empty and `valid` whether no other
      flag is set; the other flags are untouched. */
  function WithCustomError(v: Validity, message: string): (r: Validity)
    ensures |r| == |v|
    ensures forall k :: 0 <= k < |v| ==> r[k].key == v[k].key
    ensures forall k :: 0 <= k < |v| && v[k].key == "customError" ==> r[k].on == (message != "")
    ensures forall k :: 0 <= k < |v| && v[k].key != "customError" && v[k].key != "valid" ==> r[k] == v[k]
    ensures forall k :: 0 <= k < |v| && v[k].key == "valid" ==> r[k].on == !HasError(r)
  {
    var flagged := seq(|v|, k requires 0 <= k < |v| =>
      if v[k].key == "customError" then Flag(v[k].key, message != "") else v[k]);
    var r := seq(|v|, k requires 0 <= k < |v| =>
      if v[k].key == "valid" then Flag(v[k].key, !HasError(flagged)) else flagged[k]);
    assert HasError(r) == HasError(flagged) by {
      if HasError(flagged) {
        var k :| 0 <= k < |flagged| && flagged[k].key != "valid" && flagged[k].on;
        assert r[k] == flagged[k];
      }
    }
    r
  }

  /** Setting the same custom message twice is the same as setting it once. */
  lemma WithCustomErrorIdempotent(v: Validity, message: string)
    ensures WithCustomError(WithCustomError(v, message), message) == WithCustomError(v, message)
  {
    var once := WithCustomError(v, message);
    var twice := WithCustomError(once, message);
    assert HasError(twice) == HasError(once) by {
      if HasError(once) {
        var k :| 0 <= k < |once| && once[k].key != "valid" && once[k].on;
        assert twice[k] == once[k];
      }
      if HasError(twice) {
        var k :| 0 <= k < |twice| && twice[k].key != "valid" && twice[k].on;
        assert twice[k] == once[k];
      }
    }
    assert forall k :: 0 <= k < |v| ==> twice[k] == once[k];
  }

  /** `element.setCustomValidity(message)`: a non-empty message makes an
      element that takes part in validation and has a `customError` flag
      fail `checkValidity()`; the empty message leaves it failing exactly
      when a native constraint fails. A barred element keeps passing. */
  function SetCustomValidity(el: InputElement, message: string): (r: InputElement)
    ensures r.customValidity == message
    ensures r.inputType == el.inputType && r.value == el.value && r.nativeMessage == el.nativeMessage
    ensures r.barred == el.barred
    ensures el.barred ==> CheckValidity(r)
    ensures !el.barred && message != "" && HasKey(el.validity, "customError") ==> !CheckValidity(r)
    ensures !el.barred && message == "" ==> (CheckValidity(r) <==> NoNativeError(el.validity))
  {
    var v := WithCustomError(el.validity, message);
    assert message != "" && HasKey(el.validity, "customError") ==> HasError(v) by {
      if message != "" && HasKey(el.validity, "customError") {
        var c :| 0 <= c < |el.validity| && el.validity[c].key == "customError";
        assert v[c].on && v[c].key != "valid";
      }
    }
    assert message == "" ==> (HasError(v) <==> !NoNativeError(el.validity)) by {
      if message == "" && HasError(v) {
        var k :| 0 <= k < |v| && v[k].key != "valid" && v[k].on;
        assert el.validity[k] == v[k];
      }
      if message == "" && !NoNativeError(el.validity) {
        var k :| 0 <= k < |el.validity| && el.validity[k].key != "valid" && el.validity[k].key != "customError" && el.validity[k].on;
        assert v[k] == el.validity[k];
      }
    }
    el.(customValidity := message, validity := v)
  }

  /** `element.validationMessage`: the empty string for an element barred
      from constraint validation; otherwise the custom message while one is
      set, the browser's text when a native constraint fails, and the empty
      string for an element with no problem. */
  function ValidationMessage(el: InputElement): (m: string)
    ensures el.barred ==> m == ""
    ensures !el.barred && el.customValidity != "" ==> m == el.customValidity
    ensures el.customValidity == "" && CheckValidity(el) ==> m == ""
    ensures !el.barred && el.customValidity == "" && !CheckValidity(el) ==> m == el.nativeMessage
  {
    if el.barred then ""
    else if el.customValidity != "" then el.customValidity
    else if CheckValidity(el) then ""
    else el.nativeMessage
  }

  // ---------------------------------------------------------------------
  // The stricter e-mail pattern `^[\w-\.]+@([\w-]+\.)+[\w-]{2,4}$`
  // ---------------------------------------------------------------------

  /** `[\w-\.]`: a character of the part before the `@`. */
  predicate IsLocalChar(c: char) {
    IsWordChar(c) || c == '-' || c == '.'
  }

  /** `[\w-]`: a character of a domain label. */
  predicate IsLabelChar(c: char) {
    IsWordChar(c) || c == '-'
  }

  predicate IsLocalPart(s: string) {
    |s| >= 1 && forall k :: 0 <= k < |s| ==> IsLocalChar(s[k])
  }

  predicate IsLabel(s: string) {
    |s| >= 1 && forall k :: 0 <= k < |s| ==> IsLabelChar(s[k])
  }

  /** `([\w-]+\.)+[\w-]{2,4}`: at least two non-empty labels separated by
      dots, the last of two to four characters. */
  predicate IsDomain(s: string) {
    var labels := Split(s, '.');
    && |labels| >= 2
    && (forall k :: 0 <= k < |labels| ==> IsLabel(labels[k]))
    && 2 <= |labels[|labels| - 1]| <= 4
  }

  /** The whole value matches the pattern: exactly one `@`, a local part
      before it and a domain after it. */
  predicate IsEmailAddress(s: string) {
    var parts := Split(s, '@');
    |parts| == 2 && IsLocalPart(parts[0]) && IsDomain(parts[1])
  }

  /** Labels and a two-to-four character final label, joined by dots, form
      a domain. */
  lemma DomainFromLabels(labels: seq<string>, last: string)
    requires |labels| >= 1 && forall k :: 0 <= k < |labels| ==> IsLabel(labels[k])
    requires IsLabel(last) && 2 <= |last| <= 4
    ensures IsDomain(Join(labels + [last], '.'))
    ensures '@' !in Join(labels + [last], '.')
  {
    var all := labels + [last];
    forall k | 0 <= k < |all|
      ensures IsLabel(all[k]) && '.' !in all[k] && '@' !in all[k]
    {
      if k < |labels| { assert all[k] == labels[k]; } else { assert all[k] == last; }
      LabelAvoids(all[k]);
    }
    JoinAvoids(all, '.', '@');
    SplitJoin(all, '.');
    assert Split(Join(all, '.'), '.') == all;
  }

  lemma LabelAvoids(s: string)
    requires IsLabel(s)
    ensures '.' !in s && '@' !in s
  {
    forall k | 0 <= k < |s| ensures s[k] != '.' && s[k] != '@' {
      assert IsLabelChar(s[k]);
    }
  }

  /** A local part, `@` and a domain match the pattern. */
  lemma EmailOfParts(local: string, domain: string)
    requires IsLocalPart(local) && IsDomain(domain) && '@' !in domain
    ensures IsEmailAddress(local + "@" + domain)
  {
    forall k | 0 <= k < |local| ensures local[k] != '@' {
      assert IsLocalChar(local[k]);
    }
    SplitNoSep(local, '@');
    SplitNoSep(domain, '@');
    SplitAround(local, domain, '@');
    assert local + "@" + domain == local + ['@'] + domain;
  }

  /** Any local part, `@`, labels and a two-to-four character final label,
      joined by dots, match the pattern. */
  lemma EmailFromParts(local: string, labels: seq<string>, last: string)
    requires IsLocalPart(local)
    requires |labels| >= 1 && forall k :: 0 <= k < |labels| ==> IsLabel(labels[k])
    requires IsLabel(last) && 2 <= |last| <= 4
    ensures IsEmailAddress(local + "@" + Join(labels + [last], '.'))
  {
    DomainFromLabels(labels, last);
    EmailOfParts(local, Join(labels + [last], '.'));
  }

  /** Conversely, every matching value is such a composition. */
  lemma EmailToParts(s: string)
    requires IsEmailAddress(s)
    ensures
      var parts := Split(s, '@');
      var labels := Split(parts[1], '.');
      && IsLocalPart(parts[0])
      && (forall k :: 0 <= k < |labels| - 1 ==> IsLabel(labels[k]))
      && IsLabel(labels[|labels| - 1]) && 2 <= |labels[|labels| - 1]| <= 4
      && s == parts[0] + "@" + Join(labels[..|labels| - 1] + [labels[|labels| - 1]], '.')
  {
    var parts := Split(s, '@');
    var labels := Split(parts[1], '.');
    JoinSplit(s, '@');
    JoinSplit(parts[1], '.');
    assert labels[..|labels| - 1] + [labels[|labels| - 1]] == labels;
  }

  lemma NotAnEmailExample()
    ensures !IsEmailAddress("not-an-email")
  {
    SplitNoSep("not-an-email", '@');
  }

  lemma ValidEmailExample()
    ensures IsEmailAddress("jo" + "@" + Join(["mail", "org"], '.'))
  {
    assert ["mail"] + ["org"] == ["mail", "org"];
    EmailFromParts("jo", ["mail"], "org");
  }

  /** A one-letter final label does not match. */
  lemma ShortTopLevelExample()
    ensures !IsEmailAddress("a@b.c")
  {
    SplitAround("a", "b.c", '@');
    SplitNoSep("a", '@');
    SplitNoSep("b.c", '@');
    assert "a@b.c" == "a" + ['@'] + "b.c";
    SplitAround("b", "c", '.');
    SplitNoSep("b", '.');
    SplitNoSep("c", '.');
    assert "b.c" == "b" + ['.'] + "c";
  }

  // ---------------------------------------------------------------------
  // Message resolution
  // ---------------------------------------------------------------------

  /** The message for one set flag: the table entry, or the browser's text
      when the table has none, with `typeMismatch` on an e-mail field
      replaced by the e-mail message. */
  function MessageFor(key: string, inputType: string, browserMessage: string): (m: string)
    ensures key == "typeMismatch" && inputType == "email" ==> m == EmailMessage
    ensures !(key == "typeMismatch" && inputType == "email") && key in Messages ==> m == Messages[key]
    ensures key !in Messages ==> m == browserMessage
    ensures browserMessage != "" ==> m != ""
  {
    var fromTable := if key in Messages && Messages[key] != "" then Messages[key] else browserMessage;
    if key == "typeMismatch" && inputType == "email" then EmailMessage else fromTable
  }

  /** The message of the first set flag, or the empty string when none is set. */
  function FirstMessage(v: Validity, inputType: string, browserMessage: string): (m: string)
    ensures (forall k :: 0 <= k < |v| ==> !v[k].on) ==> m == ""
    ensures forall i :: 0 <= i < |v| && v[i].on && (forall k :: 0 <= k < i ==> !v[k].on) ==>
      m == MessageFor(v[i].key, inputType, browserMessage)
    decreases |v|
  {
    if v == [] then ""
    else if v[0].on then MessageFor(v[0].key, inputType, browserMessage)
    else FirstMessage(v[1..], inputType, browserMessage)
  }

  /** The custom validity the stricter e-mail check leaves on the element. */
  function CustomValidityFor(el: InputElement): (m: string)
    ensures m != "" <==> el.inputType == "email" && !IsEmailAddress(el.value)
    ensures m == "" || m == EmailMessage
  {
    if el.inputType == "email" && !IsEmailAddress(el.value) then EmailMessage else ""
  }

  /** The message and the element after `getValidationMessage`. */
  datatype Resolution = Resolution(message: string, element: InputElement)

  /** `getValidationMessage`: first force or clear the e-mail custom error,
      then read the (now updated) flags in order and return the first set
      flag's message, the browser's text being read after the update. */
  function GetValidationMessage(el: InputElement): (r: Resolution)
    ensures r.element.customValidity == CustomValidityFor(el)
    ensures r.element.validity == WithCustomError(el.validity, r.element.customValidity)
    ensures r.element.inputType == el.inputType && r.element.value == el.value
    ensures r.element.nativeMessage == el.nativeMessage && r.element.barred == el.barred
    ensures (forall k :: 0 <= k < |r.element.validity| ==> !r.element.validity[k].on) ==> r.message == ""
    ensures var v := r.element.validity;
      forall i :: 0 <= i < |v| && v[i].on && (forall k :: 0 <= k < i ==> !v[k].on) ==>
        r.message == MessageFor(v[i].key, el.inputType, ValidationMessage(r.element))
    ensures r.message in Messages.Values + {EmailMessage, el.nativeMessage, ""}
  {
    var updated := SetCustomValidity(el, CustomValidityFor(el));
    var text := ValidationMessage(updated);
    var message := FirstMessage(updated.validity, el.inputType, text);
    FirstMessageIsKnown(updated.validity, el.inputType, text);
    Resolution(message, updated)
  }

  lemma {:induction false} FirstMessageIsKnown(v: Validity, inputType: string, browserMessage: string)
    ensures FirstMessage(v, inputType, browserMessage) in Messages.Values + {EmailMessage, browserMessage, ""}
    decreases |v|
  {
    if v != [] && !v[0].on {
      FirstMessageIsKnown(v[1..], inputType, browserMessage);
    }
  }

  /** An e-mail value that fails the pattern is never accepted silently: the
      forced custom error makes some flag set, and every message the table,
      the override or the custom text supplies is non-empty. */
  lemma FailingEmailHasMessage(el: InputElement)
    requires !el.barred
    requires el.inputType == "email" && !IsEmailAddress(el.value)
    requires HasKey(el.validity, "customError")
    ensures GetValidationMessage(el).element.customValidity == EmailMessage
    ensures !CheckValidity(GetValidationMessage(el).element)
    ensures GetValidationMessage(el).message != ""
  {
    var r := GetValidationMessage(el);
    var v := r.element.validity;
    var c :| 0 <= c < |el.validity| && el.validity[c].key == "customError";
    assert v[c].on;
    var i := FirstOnBefore(v, c);
    assert ValidationMessage(r.element) == EmailMessage;
    assert r.message == MessageFor(v[i].key, el.inputType, EmailMessage);
  }

  /** The value the pattern rejects on an e-mail field with no native
      problem resolves to the e-mail message: the forced custom error is the
      first set flag, and the browser reports the custom text for it. */
  lemma RejectedEmailMessage(el: InputElement)
    requires !el.barred
    requires el.inputType == "email" && !IsEmailAddress(el.value)
    requires HasKey(el.validity, "customError")
    requires NoNativeError(el.validity)
    ensures GetValidationMessage(el).message == EmailMessage
  {
    var r := GetValidationMessage(el);
    var v := r.element.validity;
    var c :| 0 <= c < |el.validity| && el.validity[c].key == "customError";
    assert v[c].on && HasError(v);
    var i := FirstOnBefore(v, c);
    assert v[i].key == "customError";
    assert r.message == MessageFor("customError", "email", ValidationMessage(r.element));
  }

  /** Whatever flag fails, a failing element resolves to a non-empty message
      as long as the browser explains its native failures. */
  lemma FailingFieldHasMessage(el: InputElement)
    requires BrowserExplains(el)
    requires !CheckValidity(GetValidationMessage(el).element)
    ensures GetValidationMessage(el).message != ""
  {
    var r := GetValidationMessage(el);
    var v := r.element.validity;
    var c :| 0 <= c < |v| && v[c].key != "valid" && v[c].on;
    var i := FirstOnBefore(v, c);
    var text := ValidationMessage(r.element);
    assert v[i].key != "valid";
    if v[i].key == "customError" {
      assert r.element.customValidity != "";
    } else if v[i].key !in Messages {
      assert v[i] == el.validity[i];
      assert text != "";
    }
  }

  /** The position of the first set flag, given that the flag at `c` is set. */
  function FirstOnBefore(v: Validity, c: nat): (i: nat)
    requires c < |v| && v[c].on
    ensures i <= c && v[i].on
    ensures forall k :: 0 <= k < i ==> !v[k].on
    decreases c
  {
    if c == 0 || forall k :: 0 <= k < c ==> !v[k].on then c
    else
      var j :| 0 <= j < c && v[j].on;
      FirstOnBefore(v, j)
  }

  /** When the only set flags can be `valid` and `customError`, neither of
      which the table lists, and the browser's text is empty, no message
      results. */
  lemma {:induction false} OnlyValidFlagHasNoMessage(v: Validity, inputType: string)
    requires forall k :: 0 <= k < |v| && v[k].on ==> v[k].key == "valid" || v[k].key == "customError"
    ensures FirstMessage(v, inputType, "") == ""
    decreases |v|
  {
    if v != [] {
      if v[0].on {
        assert MessageFor(v[0].key, inputType, "") == "";
      } else {
        OnlyValidFlagHasNoMessage(v[1..], inputType);
      }
    }
  }

  /** A field with no native problem, whose e-mail value (if any) matches,
      clears its custom error and resolves to the empty message. */
  lemma ValidFieldHasNoMessage(el: InputElement)
    requires NoNativeError(el.validity)
    requires el.inputType == "email" ==> IsEmailAddress(el.value)
    ensures GetValidationMessage(el).element.customValidity == ""
    ensures CheckValidity(GetValidationMessage(el).element)
    ensures GetValidationMessage(el).message == ""
  {
    assert CustomValidityFor(el) == "";
    var r := GetValidationMessage(el);
    var v := r.element.validity;
    forall k | 0 <= k < |v| && v[k].on
      ensures v[k].key == "valid"
    {
    }
    assert ValidationMessage(r.element) == "";
    OnlyValidFlagHasNoMessage(v, el.inputType);
  }

  /** An element barred from constraint validation (a `readonly` e-mail
      field, say) with no native problem passes and resolves to the empty
      message, even when the stricter pattern rejects its value: the forced
      custom error is set, but the browser reports no text for it. */
  lemma BarredFieldHasNoMessage(el: InputElement)
    requires el.barred
    requires NoNativeError(el.validity)
    ensures CheckValidity(GetValidationMessage(el).element)
    ensures GetValidationMessage(el).message == ""
  {
    var r := GetValidationMessage(el);
    var v := r.element.validity;
    forall k | 0 <= k < |v| && v[k].on
      ensures v[k].key == "valid" || v[k].key == "customError"
    {
    }
    OnlyValidFlagHasNoMessage(v, el.inputType);
  }

  /** A native flag set at `i`, with nothing set before it and no
      custom-error flag before it, is still the first set flag once the
      custom error is forced or cleared. */
  lemma NativeFlagFirst(el: InputElement, i: nat)
    requires i < |el.validity| && el.validity[i].on
    requires el.validity[i].key != "valid" && el.validity[i].key != "customError"
    requires forall k :: 0 <= k < i ==> !el.validity[k].on && el.validity[k].key != "customError"
    ensures var r := GetValidationMessage(el);
      r.message == MessageFor(el.validity[i].key, el.inputType, ValidationMessage(r.element))
  {
    var r := GetValidationMessage(el);
    var v := r.element.validity;
    assert v[i] == el.validity[i];
    assert HasError(v);
    forall k | 0 <= k < i ensures !v[k].on {
      if v[k].key != "valid" {
        assert v[k] == el.validity[k];
      }
    }
  }

  /** A missing value, with no flag before it set and no custom-error flag
      before it to be forced, gives the required message. */
  lemma RequiredFieldMessage(el: InputElement, i: nat)
    requires i < |el.validity| && el.validity[i].key == "valueMissing" && el.validity[i].on
    requires forall k :: 0 <= k < i ==> !el.validity[k].on && el.validity[k].key != "customError"
    ensures GetValidationMessage(el).message == "This field is required"
  {
    NativeFlagFirst(el, i);
    assert Messages["valueMissing"] == "This field is required";
  }

  /** A type mismatch on an e-mail field, under the same conditions, gives
      the e-mail message rather than the table's generic one. */
  lemma EmailTypeMismatchMessage(el: InputElement, i: nat)
    requires el.inputType == "email"
    requires i < |el.validity| && el.validity[i].key == "typeMismatch" && el.validity[i].on
    requires forall k :: 0 <= k < i ==> !el.validity[k].on && el.validity[k].key != "customError"
    ensures GetValidationMessage(el).message == EmailMessage
  {
    NativeFlagFirst(el, i);
  }

  // ---------------------------------------------------------------------
  // Annotation
  // ---------------------------------------------------------------------

  /** The class marking a container whose field is invalid. */
  const InvalidClass := "invalid-field"

  /** The field's parent element: its `data-error-message` and its classes. */
  datatype Container = Container(errorMessage: Option<string>, classes: set<string>)

  /** An input together with its parent element, if it has one. */
  datatype Field = Field(input: InputElement, parent: Option<Container>)

  /** `validateInput`: resolve the message, then write it on the parent and
      mark the parent invalid exactly when the message is non-empty. The
      element's custom validity is updated even when there is no parent. */
  function ValidateInput(f: Field): (r: Field)
    ensures r.input == GetValidationMessage(f.input).element
    ensures r.parent.Some? <==> f.parent.Some?
    ensures r.parent.Some? ==>
      var message := GetValidationMessage(f.input).message;
      && r.parent.value.errorMessage == Some(message)
      && (InvalidClass in r.parent.value.classes <==> message != "")
      && r.parent.value.classes - {InvalidClass} == f.parent.value.classes - {InvalidClass}
  {
    var resolved := GetValidationMessage(f.input);
    match f.parent
    case None => Field(resolved.element, None)
    case Some(p) =>
      var classes := if resolved.message == "" then p.classes - {InvalidClass} else p.classes + {InvalidClass};
      Field(resolved.element, Some(Container(Some(resolved.message), classes)))
  }

  /** Resolving the message of an element already resolved changes nothing:
      the custom error is already the one the value calls for. */
  lemma ResolveTwice(el: InputElement)
    ensures GetValidationMessage(GetValidationMessage(el).element) == GetValidationMessage(el)
  {
    var once := GetValidationMessage(el).element;
    var m := CustomValidityFor(el);
    assert CustomValidityFor(once) == m;
    WithCustomErrorIdempotent(el.validity, m);
    assert GetValidationMessage(once).element == once;
  }

  /** Validating a field twice in a row (two blurs) is the same as once. */
  lemma ValidateInputIdempotent(f: Field)
    ensures ValidateInput(ValidateInput(f)) == ValidateInput(f)
  {
    ResolveTwice(f.input);
  }

  /** Leaving a barred field with no native problem clears its container:
      the empty message is written and `invalid-field` removed, whatever
      its value. */
  lemma BarredFieldLeftClean(f: Field)
    requires f.parent.Some? && f.input.barred
    requires NoNativeError(f.input.validity)
    ensures ValidateInput(f).parent.Some?
    ensures InvalidClass !in ValidateInput(f).parent.value.classes
    ensures ValidateInput(f).parent.value.errorMessage == Some("")
  {
    BarredFieldHasNoMessage(f.input);
  }

  /** Leaving an e-mail field whose value the pattern rejects marks its
      container invalid and writes the e-mail message on it. */
  lemma RejectedEmailMarksContainer(f: Field)
    requires f.parent.Some? && !f.input.barred
    requires f.input.inputType == "email" && !IsEmailAddress(f.input.value)
    requires HasKey(f.input.validity, "customError")
    ensures ValidateInput(f).parent.Some?
    ensures InvalidClass in ValidateInput(f).parent.value.classes
    ensures ValidateInput(f).parent.value.errorMessage != Some("")
  {
    FailingEmailHasMessage(f.input);
  }
}
