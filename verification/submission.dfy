/** Form submission: collect the form's inputs, block the submission and
    annotate every failing input, or else mark the submit button as loading,
    shape the request and settle the button once the request is over.

    The request itself is asynchronous I/O; what is modelled is the request
    the form produces and the state the button ends in. */
module Submission {
  import opened Nullable
  import opened Text
  import opened Validation

  /** One of `form.elements`: an input with its container, or a control of
      another kind (select, textarea, button, fieldset, ...). */
  datatype Control = InputControl(field: Field) | OtherControl(tagName: string)

  /** The name/value pairs `new FormData(form)` collects. */
  type Entries = seq<(string, string)>

  /** A form: its resolved `action`, its `method`, its form data and its controls. */
  datatype Form = Form(action: string, httpMethod: string, data: Entries, controls: seq<Control>)

  // ---------------------------------------------------------------------
  // `getInputsFromForm`
  // ---------------------------------------------------------------------

  /** `getInputsFromForm`: the input elements among the form's controls, in
      document order. */
  function GetInputsFromForm(controls: seq<Control>): (inputs: seq<Field>)
    ensures |inputs| <= |controls|
    ensures forall i :: 0 <= i < |inputs| ==> InputControl(inputs[i]) in controls
    ensures forall k :: 0 <= k < |controls| && controls[k].InputControl? ==> controls[k].field in inputs
    decreases |controls|
  {
    if controls == [] then []
    else match controls[0]
      case InputControl(f) => [f] + GetInputsFromForm(controls[1..])
      case OtherControl(_) => GetInputsFromForm(controls[1..])
  }

  /** The inputs of consecutive groups of controls are those of each group,
      in order. */
  lemma {:induction false} GetInputsAppend(a: seq<Control>, b: seq<Control>)
    ensures GetInputsFromForm(a + b) == GetInputsFromForm(a) + GetInputsFromForm(b)
    decreases |a|
  {
    if a == [] {
      assert a + b == b;
    } else {
      assert (a + b)[0] == a[0];
      assert (a + b)[1..] == a[1..] + b;
      GetInputsAppend(a[1..], b);
    }
  }

  /** Controls that are all inputs are kept one for one. */
  lemma {:induction false} GetInputsAllInputs(controls: seq<Control>)
    requires forall k :: 0 <= k < |controls| ==> controls[k].InputControl?
    ensures |GetInputsFromForm(controls)| == |controls|
    ensures forall k :: 0 <= k < |controls| ==> GetInputsFromForm(controls)[k] == controls[k].field
    decreases |controls|
  {
    if controls != [] {
      GetInputsAllInputs(controls[1..]);
    }
  }

  // ---------------------------------------------------------------------
  // Annotating failing inputs
  // ---------------------------------------------------------------------

  /** A failing input is annotated with `validateInput`; a passing one is left alone. */
  function AnnotateField(f: Field): (r: Field)
    ensures CheckValidity(f.input) ==> r == f
    ensures r.parent.Some? <==> f.parent.Some?
    ensures !CheckValidity(f.input) ==> r.input == GetValidationMessage(f.input).element
    ensures !CheckValidity(f.input) && f.parent.Some? ==>
      r.parent.value.errorMessage == Some(GetValidationMessage(f.input).message)
  {
    if CheckValidity(f.input) then f else ValidateInput(f)
  }

  function AnnotateIfFailing(c: Control): Control {
    match c
    case InputControl(f) => InputControl(AnnotateField(f))
    case OtherControl(_) => c
  }

  /** The `forEach` over the inputs: every failing input is annotated. */
  function Annotate(controls: seq<Control>): (r: seq<Control>)
    ensures |r| == |controls|
    ensures forall k :: 0 <= k < |controls| ==> r[k] == AnnotateIfFailing(controls[k])
    decreases |controls|
  {
    if controls == [] then [] else [AnnotateIfFailing(controls[0])] + Annotate(controls[1..])
  }

  /** Every input passes `checkValidity()`. */
  predicate AllInputsPass(controls: seq<Control>) {
    var inputs := GetInputsFromForm(controls);
    forall i :: 0 <= i < |inputs| ==> CheckValidity(inputs[i].input)
  }

  /** After the loop, the form's inputs are its old inputs with exactly the
      failing ones run through `validateInput`. */
  lemma {:induction false} AnnotatedInputs(controls: seq<Control>)
    ensures
      var before := GetInputsFromForm(controls);
      var after := GetInputsFromForm(Annotate(controls));
      && |after| == |before|
      && forall i :: 0 <= i < |before| ==> after[i] == AnnotateField(before[i])
    decreases |controls|
  {
    if controls != [] {
      var rest := controls[1..];
      var annotated := Annotate(controls);
      AnnotatedInputs(rest);
      assert annotated[1..] == Annotate(rest);
      var before, after := GetInputsFromForm(controls), GetInputsFromForm(annotated);
      var restBefore, restAfter := GetInputsFromForm(rest), GetInputsFromForm(Annotate(rest));
      match controls[0]
      case InputControl(f) =>
        assert before == [f] + restBefore;
        assert after == [AnnotateField(f)] + restAfter;
        forall i | 0 <= i < |before|
          ensures after[i] == AnnotateField(before[i])
        {
          if i > 0 {
            assert after[i] == restAfter[i - 1] && before[i] == restBefore[i - 1];
          }
        }
      case OtherControl(_) =>
        assert before == restBefore;
        assert after == restAfter;
    }
  }

  /** When every input passes, the loop changes nothing. */
  lemma {:induction false} AnnotateAllPass(controls: seq<Control>)
    requires AllInputsPass(controls)
    ensures Annotate(controls) == controls
    decreases |controls|
  {
    if controls != [] {
      var rest := controls[1..];
      assert AllInputsPass(rest) by {
        var inputs := GetInputsFromForm(controls);
        var restInputs := GetInputsFromForm(rest);
        forall i | 0 <= i < |restInputs|
          ensures CheckValidity(restInputs[i].input)
        {
          if controls[0].InputControl? {
            assert restInputs[i] == inputs[i + 1];
          } else {
            assert restInputs[i] == inputs[i];
          }
        }
      }
      AnnotateAllPass(rest);
      if controls[0].InputControl? {
        assert GetInputsFromForm(controls)[0] == controls[0].field;
      }
    }
  }

  // ---------------------------------------------------------------------
  // `submitForm`
  // ---------------------------------------------------------------------

  /** The request `fetch` is given: the method, the URL (for `GET`, the action
      followed by `?`, which the encoded query then follows), and the form
      data as query or as body. */
  datatype Request = Request(httpMethod: string, url: string, query: Option<Entries>, body: Option<Entries>)

  const NoActionError := "Cannot send form because no action was provided"

  /** The upper-cased method is `GET`. */
  predicate IsGet(httpMethod: string) {
    AsciiUpper(httpMethod) == "GET"
  }

  /** Upper-casing makes the method comparison case-insensitive, and nothing else. */
  lemma IsGetIff(httpMethod: string)
    ensures IsGet(httpMethod) <==>
      |httpMethod| == 3 && httpMethod[0] in "gG" && httpMethod[1] in "eE" && httpMethod[2] in "tT"
  {
    if |httpMethod| == 3 {
      var up := AsciiUpper(httpMethod);
      assert up == [UpperChar(httpMethod[0]), UpperChar(httpMethod[1]), UpperChar(httpMethod[2])];
    }
  }

  /** `submitForm`: reject when there is no action; otherwise send the data
      in the query string for `GET` and as the body for any other method. */
  function SubmitForm(form: Form): (r: Result<Request, string>)
    ensures r.Err? <==> form.action == ""
    ensures r.Err? ==> r.error == NoActionError
    ensures r.Ok? ==> r.value.httpMethod == AsciiUpper(form.httpMethod)
    ensures r.Ok? && IsGet(form.httpMethod) ==>
      r.value.url == form.action + "?" && r.value.query == Some(form.data) && r.value.body == None
    ensures r.Ok? && !IsGet(form.httpMethod) ==>
      r.value.url == form.action && r.value.query == None && r.value.body == Some(form.data)
  {
    var httpMethod := AsciiUpper(form.httpMethod);
    if form.action == "" then Err(NoActionError)
    else if httpMethod == "GET" then Ok(Request(httpMethod, form.action + "?", Some(form.data), None))
    else Ok(Request(httpMethod, form.action, None, Some(form.data)))
  }

  // ---------------------------------------------------------------------
  // The submit button
  // ---------------------------------------------------------------------

  /** The control that submitted the form: its classes, `disabled` and its text. */
  datatype Button = Button(classes: set<string>, disabled: bool, text: string)

  const LoadingClass := "loading"
  const SubmittedLabel := "Submitted"

  /** Submission start: loading and disabled. */
  function StartLoading(b: Button): (r: Button)
    ensures LoadingClass in r.classes && r.disabled
    ensures r.classes - {LoadingClass} == b.classes - {LoadingClass} && r.text == b.text
  {
    b.(classes := b.classes + {LoadingClass}, disabled := true)
  }

  /** The `finally` step: loading removed and the label replaced; `disabled`
      is not touched. */
  function Settle(b: Button): (r: Button)
    ensures LoadingClass !in r.classes && r.text == SubmittedLabel
    ensures r.disabled == b.disabled
    ensures r.classes == b.classes - {LoadingClass}
  {
    b.(classes := b.classes - {LoadingClass}, text := SubmittedLabel)
  }

  // ---------------------------------------------------------------------
  // `handleFormSubmission`
  // ---------------------------------------------------------------------

  /** What became of the attempt. */
  datatype Outcome =
    | Blocked
      // some input failed; nothing is sent
    | NoSubmitter
      // every input passed but the event has no submitter: reading its
      // classes throws before anything is sent
    | Sent(loading: Button, request: Result<Request, string>, settled: Button)
      // the button while the request is pending, the request (or the
      // rejection) and the button once it is over

  datatype SubmitResult = SubmitResult(defaultPrevented: bool, form: Form, outcome: Outcome)

  /** `handleFormSubmission`: always cancel the native submission; annotate
      every failing input; when none failed, mark the submitter as loading,
      submit, and settle the submitter whatever the request's fate. */
  function HandleFormSubmission(form: Form, submitter: Option<Button>): (r: SubmitResult)
    ensures r.defaultPrevented
    ensures r.form == form.(controls := Annotate(form.controls))
    ensures r.outcome.Blocked? <==> !AllInputsPass(form.controls)
    ensures !r.outcome.Blocked? ==> r.form == form
    ensures r.outcome.NoSubmitter? <==> AllInputsPass(form.controls) && submitter.None?
    ensures r.outcome.Sent? ==>
      && submitter.Some?
      && r.outcome.request == SubmitForm(form)
      && LoadingClass in r.outcome.loading.classes && r.outcome.loading.disabled
      && LoadingClass !in r.outcome.settled.classes
      && r.outcome.settled.disabled
      && r.outcome.settled.text == SubmittedLabel
      && r.outcome.settled.classes == submitter.value.classes - {LoadingClass}
  {
    var annotated := form.(controls := Annotate(form.controls));
    if !AllInputsPass(form.controls) then
      SubmitResult(true, annotated, Blocked)
    else
      AnnotateAllPass(form.controls);
      match submitter
      case None => SubmitResult(true, form, NoSubmitter)
      case Some(b) =>
        var loading := StartLoading(b);
        SubmitResult(true, form, Sent(loading, SubmitForm(form), Settle(loading)))
  }

  /** A form without an action still ends with a disabled button reading
      "Submitted": the rejection is only logged. */
  lemma EmptyActionStillReportsSubmitted(form: Form, b: Button)
    requires form.action == ""
    requires AllInputsPass(form.controls)
    ensures
      var r := HandleFormSubmission(form, Some(b));
      && r.outcome.Sent?
      && r.outcome.request == Err(NoActionError)
      && r.outcome.settled.disabled
      && r.outcome.settled.text == SubmittedLabel
  {
  }

  /** A blocked submission annotates every failing input: each one that has
      a container gets the message it resolves to, and the passing ones are
      left exactly as they were. */
  lemma BlockedSubmissionAnnotates(form: Form, submitter: Option<Button>, i: nat)
    requires i < |GetInputsFromForm(form.controls)|
    ensures
      var before := GetInputsFromForm(form.controls)[i];
      var r := HandleFormSubmission(form, submitter);
      var after := GetInputsFromForm(r.form.controls);
      && |after| == |GetInputsFromForm(form.controls)|
      && (CheckValidity(before.input) ==> after[i] == before)
      && (!CheckValidity(before.input) && before.parent.Some? ==>
            after[i].parent.Some? &&
            after[i].parent.value.errorMessage == Some(GetValidationMessage(before.input).message))
  {
    AnnotatedInputs(form.controls);
  }

  /** An input barred from constraint validation never holds the
      submission back: it passes `checkValidity()`, so the loop leaves it
      exactly as it was. */
  lemma BarredInputIsLeftAlone(form: Form, submitter: Option<Button>, i: nat)
    requires i < |GetInputsFromForm(form.controls)|
    requires GetInputsFromForm(form.controls)[i].input.barred
    ensures
      var after := GetInputsFromForm(HandleFormSubmission(form, submitter).form.controls);
      && |after| == |GetInputsFromForm(form.controls)|
      && after[i] == GetInputsFromForm(form.controls)[i]
  {
    BlockedSubmissionAnnotates(form, submitter, i);
  }

  /** A form whose inputs are all barred is never blocked and is left as it
      was, however their values look. */
  lemma BarredInputsNeverBlock(form: Form, submitter: Option<Button>)
    requires forall f :: f in GetInputsFromForm(form.controls) ==> f.input.barred
    ensures !HandleFormSubmission(form, submitter).outcome.Blocked?
    ensures HandleFormSubmission(form, submitter).form == form
  {
    var inputs := GetInputsFromForm(form.controls);
    forall i | 0 <= i < |inputs|
      ensures CheckValidity(inputs[i].input)
    {
      assert inputs[i] in inputs;
    }
    assert AllInputsPass(form.controls);
  }

  /** On a form with `novalidate` (where the browser's own validation does
      not stop the `submit` event), an e-mail field whose value was fixed
      after a blur set its custom error still fails `checkValidity()` at
      submit time (the stale custom error is only cleared inside
      `validateInput`), so the submission is blocked while the field's
      container is cleared of any error: the form is held back with no
      message shown. */
  lemma StaleCustomErrorBlocksSilently(form: Form, submitter: Option<Button>, k: nat)
    requires k < |form.controls| && form.controls[k].InputControl?
    requires
      var f := form.controls[k].field;
      && f.parent.Some? && !f.input.barred
      && f.input.inputType == "email" && IsEmailAddress(f.input.value)
      && (forall j :: 0 <= j < |f.input.validity| ==>
            f.input.validity[j].key != "valid" ==> (f.input.validity[j].on <==> f.input.validity[j].key == "customError"))
      && (exists j :: 0 <= j < |f.input.validity| && f.input.validity[j].key == "customError")
    ensures
      var r := HandleFormSubmission(form, submitter);
      && r.outcome.Blocked?
      && r.form.controls[k].field.parent.Some?
      && InvalidClass !in r.form.controls[k].field.parent.value.classes
      && CheckValidity(r.form.controls[k].field.input)
  {
    var f := form.controls[k].field;
    var j :| 0 <= j < |f.input.validity| && f.input.validity[j].key == "customError";
    assert !CheckValidity(f.input);
    assert f in GetInputsFromForm(form.controls);
    ValidFieldHasNoMessage(f.input);
  }

  // ---------------------------------------------------------------------
  // Corrected submission: the stricter check refreshed before `checkValidity`
  // ---------------------------------------------------------------------

  /** An input with its custom error forced or cleared for the value it
      holds now; any other control is left alone. */
  function RefreshControl(c: Control): (r: Control)
    ensures r.InputControl? <==> c.InputControl?
    ensures c.InputControl? ==> r.field == c.field.(input := GetValidationMessage(c.field.input).element)
  {
    match c
    case InputControl(f) => InputControl(f.(input := GetValidationMessage(f.input).element))
    case OtherControl(_) => c
  }

  function RefreshControls(controls: seq<Control>): (r: seq<Control>)
    ensures |r| == |controls|
    ensures forall k :: 0 <= k < |controls| ==> r[k] == RefreshControl(controls[k])
  {
    seq(|controls|, k requires 0 <= k < |controls| => RefreshControl(controls[k]))
  }

  /** The input at `k` fails once the stricter e-mail check is re-applied. */
  predicate FailsAfterRefresh(controls: seq<Control>, k: int) {
    && 0 <= k < |controls| && controls[k].InputControl?
    && !CheckValidity(GetValidationMessage(controls[k].field.input).element)
  }

  /** `handleFormSubmission` with the e-mail custom error of every input
      brought up to date before `checkValidity()` is asked, so a value fixed
      since the last blur no longer blocks the form. */
  function HandleFormSubmissionRefreshed(form: Form, submitter: Option<Button>): (r: SubmitResult)
    ensures r.defaultPrevented
    ensures r.outcome.Blocked? <==> exists k :: FailsAfterRefresh(form.controls, k)
    ensures r.form.controls == Annotate(RefreshControls(form.controls))
    ensures r.outcome.Sent? ==> r.outcome.request == SubmitForm(form)
  {
    var refreshed := RefreshControls(form.controls);
    RefreshedInputsPass(form.controls);
    HandleFormSubmission(form.(controls := refreshed), submitter)
  }

  /** After the refresh every input passes exactly when none fails the
      refreshed check. */
  lemma RefreshedInputsPass(controls: seq<Control>)
    ensures AllInputsPass(RefreshControls(controls)) <==> !exists k :: FailsAfterRefresh(controls, k)
  {
    if !AllInputsPass(RefreshControls(controls)) {
      RefreshedFailureIsFound(controls);
    }
    if exists k :: FailsAfterRefresh(controls, k) {
      var k :| FailsAfterRefresh(controls, k);
      RefreshedFailureIsSeen(controls, k);
    }
  }

  lemma RefreshedFailureIsFound(controls: seq<Control>)
    requires !AllInputsPass(RefreshControls(controls))
    ensures exists k :: FailsAfterRefresh(controls, k)
  {
    var refreshed := RefreshControls(controls);
    var inputs := GetInputsFromForm(refreshed);
    var i :| 0 <= i < |inputs| && !CheckValidity(inputs[i].input);
    assert InputControl(inputs[i]) in refreshed;
    var k :| 0 <= k < |refreshed| && refreshed[k] == InputControl(inputs[i]);
    assert RefreshControl(controls[k]) == InputControl(inputs[i]);
    assert FailsAfterRefresh(controls, k);
  }

  lemma RefreshedFailureIsSeen(controls: seq<Control>, k: int)
    requires FailsAfterRefresh(controls, k)
    ensures !AllInputsPass(RefreshControls(controls))
  {
    var refreshed := RefreshControls(controls);
    var inputs := GetInputsFromForm(refreshed);
    assert refreshed[k] == RefreshControl(controls[k]);
    assert refreshed[k].field in inputs;
    var i :| 0 <= i < |inputs| && inputs[i] == refreshed[k].field;
    assert !CheckValidity(inputs[i].input);
  }

  /** Under the corrected handler every input that blocks the submission
      shows why: its container is marked invalid, provided the browser
      explains the input's native failures. */
  lemma RefreshedBlockingFieldShowsError(form: Form, submitter: Option<Button>, k: nat)
    requires FailsAfterRefresh(form.controls, k)
    requires form.controls[k].field.parent.Some?
    requires BrowserExplains(form.controls[k].field.input)
    ensures
      var r := HandleFormSubmissionRefreshed(form, submitter);
      && r.outcome.Blocked?
      && r.form.controls[k].InputControl?
      && r.form.controls[k].field.parent.Some?
      && InvalidClass in r.form.controls[k].field.parent.value.classes
  {
    var f := form.controls[k].field;
    var g := f.(input := GetValidationMessage(f.input).element);
    ResolveTwice(f.input);
    FailingFieldHasMessage(f.input);
    assert ValidateInput(g) == ValidateInput(f);
  }

  /** The stale case above under the corrected handler: the fixed e-mail
      field passes once its custom error is refreshed, so it blocks nothing. */
  lemma RefreshedStaleFieldPasses(form: Form, k: nat)
    requires k < |form.controls| && form.controls[k].InputControl?
    requires
      var f := form.controls[k].field;
      && f.input.inputType == "email" && IsEmailAddress(f.input.value)
      && NoNativeError(f.input.validity)
    ensures !FailsAfterRefresh(form.controls, k)
  {
    ValidFieldHasNoMessage(form.controls[k].field.input);
  }
}
