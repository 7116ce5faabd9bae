/** The phone mask: a visible input shows `(DDD) DDD-DDDD` while a hidden
    input created next to it carries the bare ten digits for submission.

    The document is reduced to the hidden inputs initialisation creates, in
    tree order (`Page`); `document.getElementById` is the first of them with
    the requested id. */
module PhoneMask {
  import opened Nullable
  import opened Text

  /** The digits a complete number has, and the most the mask keeps. */
  const MaxDigits: nat := 10

  /** The visible phone input. */
  datatype PhoneInput = PhoneInput(
    name: Option<string>,          // the `name` attribute, if any
    value: string,
    selectionStart: Option<nat>,   // `null` when the input reports no selection
    idSuffix: Option<string>)      // `data-id-suffix`, written by initialisation

  /** A hidden input created by initialisation. */
  datatype HiddenInput = HiddenInput(id: string, name: string, value: string)

  /** The hidden inputs of the document, in tree order. */
  type Page = seq<HiddenInput>

  function Min(a: int, b: int): int {
    if a < b then a else b
  }

  // ---------------------------------------------------------------------
  // Digit buffer and mask
  // ---------------------------------------------------------------------

  /** `value.replace(/\D/g, '').slice(0, 10)`: the first ten digits of the
      value, in their original order. */
  function DigitBuffer(value: string): (d: string)
    ensures AllDigits(d)
    ensures |d| == Min(|DigitsOf(value)|, MaxDigits)
    ensures d == DigitsOf(value)[..|d|]
  {
    var all := DigitsOf(value);
    if |all| <= MaxDigits then all else all[..MaxDigits]
  }

  /** Digits typed after the tenth do not reach the buffer. */
  lemma ExtraDigitsIgnored(a: string, b: string)
    requires |DigitsOf(a)| >= MaxDigits
    ensures DigitBuffer(a + b) == DigitBuffer(a)
  {
    DigitsOfAppend(a, b);
  }

  /** A buffer of at most ten digits is its own digit buffer. */
  lemma DigitBufferOfDigits(d: string)
    requires AllDigits(d) && |d| <= MaxDigits
    ensures DigitBuffer(d) == d
  {
    DigitsOfAllDigits(d);
  }

  /** The masked text for a digit buffer, built the way the handler builds it:
      an opening parenthesis and up to three digits, then `) ` and up to three
      more once there are four, then `-` and the rest once there are seven. */
  function Mask(d: string): (m: string)
    ensures |d| == 0 ==> m == ""
    ensures 1 <= |d| <= 3 ==> m == "(" + d
    ensures 4 <= |d| <= 6 ==> m == "(" + d[..3] + ") " + d[3..]
    ensures 7 <= |d| ==> m == "(" + d[..3] + ") " + d[3..6] + "-" + d[6..]
    ensures |m| == |d| + (if |d| == 0 then 0 else if |d| <= 3 then 1 else if |d| <= 6 then 3 else 4)
    ensures |d| <= MaxDigits ==> |m| <= 14
  {
    var n := |d|;
    var area := if 0 < n then "(" + d[..Min(3, n)] else "";
    var exchange := if 4 <= n then area + ") " + d[3..Min(6, n)] else area;
    if 7 <= n then exchange + "-" + d[6..] else exchange
  }

  /** A separator followed by a run of digits contributes exactly those digits. */
  lemma DigitsAfterSeparator(sep: string, x: string)
    requires forall k :: 0 <= k < |sep| ==> !IsDigit(sep[k])
    requires AllDigits(x)
    ensures DigitsOf(sep + x) == x
  {
    DigitsOfAppend(sep, x);
    DigitsOfNoDigits(sep);
    DigitsOfAllDigits(x);
  }

  /** Removing the non-digits from the mask gives back the digit buffer. */
  lemma MaskRoundTrip(d: string)
    requires AllDigits(d)
    ensures DigitsOf(Mask(d)) == d
  {
    var n := |d|;
    if n == 0 {
    } else if n <= 3 {
      DigitsAfterSeparator("(", d);
    } else if n <= 6 {
      var p1, p2 := "(" + d[..3], ") " + d[3..];
      assert Mask(d) == p1 + p2;
      DigitsOfAppend(p1, p2);
      DigitsAfterSeparator("(", d[..3]);
      DigitsAfterSeparator(") ", d[3..]);
      assert d[..3] + d[3..] == d;
    } else {
      var p1, p2, p3 := "(" + d[..3], ") " + d[3..6], "-" + d[6..];
      assert Mask(d) == (p1 + p2) + p3;
      DigitsOfAppend(p1 + p2, p3);
      DigitsOfAppend(p1, p2);
      DigitsAfterSeparator("(", d[..3]);
      DigitsAfterSeparator(") ", d[3..6]);
      DigitsAfterSeparator("-", d[6..]);
      assert d[..3] + d[3..6] == d[..6];
      assert d[..6] + d[6..] == d;
    }
  }

  /** Different digit buffers are shown differently. */
  lemma MaskInjective(d1: string, d2: string)
    requires AllDigits(d1) && AllDigits(d2)
    requires Mask(d1) == Mask(d2)
    ensures d1 == d2
  {
    MaskRoundTrip(d1);
    MaskRoundTrip(d2);
  }

  /** Masking the masked text again reproduces it: the mask is re-applied to
      its own output on every keystroke. */
  lemma MaskIdempotent(value: string)
    ensures Mask(DigitBuffer(Mask(DigitBuffer(value)))) == Mask(DigitBuffer(value))
  {
    var d := DigitBuffer(value);
    MaskRoundTrip(d);
    DigitBufferOfDigits(d);
  }

  /** A complete number is shown as `(555) 123-4567`. */
  lemma MaskCompleteExample()
    ensures Mask("5551234567") == "(555) 123-4567"
  {
    var d := "5551234567";
    assert d[..3] == "555" && d[3..6] == "123" && d[6..] == "4567";
  }

  // ---------------------------------------------------------------------
  // Finding the hidden input
  // ---------------------------------------------------------------------

  /** The id the handler looks up: `${prefix}-${suffix}`, where a missing
      suffix is rendered as `undefined` by the template literal. */
  function HiddenId(prefix: string, suffix: Option<string>): (id: string)
    ensures |id| > |prefix| && id[..|prefix| + 1] == prefix + "-"
    ensures suffix.Some? ==> id[|prefix| + 1..] == suffix.value
    ensures suffix.None? ==> id[|prefix| + 1..] == "undefined"
  {
    prefix + "-" + suffix.OrElse("undefined")
  }

  /** Under one prefix, different stored suffixes give different ids. */
  lemma HiddenIdInjective(prefix: string, a: string, b: string)
    requires HiddenId(prefix, Some(a)) == HiddenId(prefix, Some(b))
    ensures a == b
  {
    assert HiddenId(prefix, Some(a))[|prefix| + 1..] == a;
  }

  /** `document.getElementById(id)`: the first hidden input with that id. */
  function FindById(page: Page, id: string): (r: Option<nat>)
    ensures r.Some? ==> r.value < |page| && page[r.value].id == id
    ensures r.Some? ==> forall k :: 0 <= k < r.value ==> page[k].id != id
    ensures r.None? ==> forall k :: 0 <= k < |page| ==> page[k].id != id
    decreases |page|
  {
    if page == [] then None
    else if page[0].id == id then Some(0)
    else match FindById(page[1..], id)
      case None => None
      case Some(k) => Some(k + 1)
  }

  /** The lookup depends on the ids only, not on the values. */
  lemma FindBySameIds(p1: Page, p2: Page, id: string)
    requires |p1| == |p2|
    requires forall k :: 0 <= k < |p1| ==> p1[k].id == p2[k].id
    ensures FindById(p1, id) == FindById(p2, id)
  {
    var r1, r2 := FindById(p1, id), FindById(p2, id);
    if r1.Some? && r2.Some? {
      assert !(r1.value < r2.value) && !(r2.value < r1.value);
    }
  }

  // ---------------------------------------------------------------------
  // The input handler
  // ---------------------------------------------------------------------

  /** The visible input after the handler ran, the cursor position it set
      (none when it returned before setting it) and the hidden inputs. */
  datatype InputResult = InputResult(field: PhoneInput, cursor: Option<int>, page: Page)

  /** `handleInputPhoneField`: re-mask the visible value, write the digits to
      the paired hidden input once all ten are present, and put the cursor
      back at the same distance from the end of the text. */
  function HandleInputPhoneField(field: PhoneInput, prefix: string, page: Page): (r: InputResult)
    ensures r.field == field.(value := Mask(DigitBuffer(field.value)))
    ensures DigitsOf(r.field.value) == DigitBuffer(field.value)
    ensures |r.page| == |page|
    ensures forall k :: 0 <= k < |page| ==> r.page[k].id == page[k].id && r.page[k].name == page[k].name
    ensures forall k :: 0 <= k < |page| ==>
      r.page[k].value ==
        if |DigitBuffer(field.value)| == MaxDigits && FindById(page, HiddenId(prefix, field.idSuffix)) == Some(k)
        then DigitBuffer(field.value)
        else page[k].value
    ensures r.cursor.None? <==>
      |DigitBuffer(field.value)| == MaxDigits && FindById(page, HiddenId(prefix, field.idSuffix)).None?
    ensures r.cursor.Some? ==>
      |r.field.value| - r.cursor.value == |field.value| - field.selectionStart.OrElse(0)
  {
    var digits := DigitBuffer(field.value);
    var masked := Mask(digits);
    var oldOffset := |field.value| - field.selectionStart.OrElse(0);
    var shown := field.(value := masked);
    MaskRoundTrip(digits);
    if |digits| == MaxDigits then
      match FindById(page, HiddenId(prefix, field.idSuffix))
      case None => InputResult(shown, None, page)
      case Some(k) => InputResult(shown, Some(|masked| - oldOffset), page[k := page[k].(value := digits)])
    else
      InputResult(shown, Some(|masked| - oldOffset), page)
  }

  /** Running the handler on its own output changes nothing: the text and the
      hidden inputs stay as they are and the cursor stays where it was put. */
  lemma HandleInputIdempotent(field: PhoneInput, prefix: string, page: Page, sel: Option<nat>)
    ensures
      var r := HandleInputPhoneField(field, prefix, page);
      var again := HandleInputPhoneField(r.field.(selectionStart := sel), prefix, r.page);
      && again.field == r.field.(selectionStart := sel)
      && again.page == r.page
      && again.cursor.None? == r.cursor.None?
      && (again.cursor.Some? ==> again.cursor.value == sel.OrElse(0))
  {
    var r := HandleInputPhoneField(field, prefix, page);
    var d := DigitBuffer(field.value);
    MaskIdempotent(field.value);
    MaskRoundTrip(d);
    DigitBufferOfDigits(d);
    FindBySameIds(page, r.page, HiddenId(prefix, field.idSuffix));
  }

  // ---------------------------------------------------------------------
  // Initialisation
  // ---------------------------------------------------------------------

  /** The visible input and the hidden inputs after initialisation. */
  datatype InitResult = InitResult(field: PhoneInput, page: Page)

  /** `initMaskedPhoneInput` at time `now` (milliseconds, `Date.now()`):
      unless the trimmed name is missing or empty, tag the visible input with
      the hexadecimal time, add a hidden input carrying the name, and remove
      the name from the visible input. The hidden input is the next sibling
      of the visible one; fields initialised in document order therefore
      append their hidden inputs in that order. */
  function InitMaskedPhoneInput(field: PhoneInput, prefix: string, now: nat, page: Page): (r: InitResult)
    ensures field.name.None? || AllSpace(field.name.value) ==> r == InitResult(field, page)
    ensures field.name.Some? && !AllSpace(field.name.value) ==>
      && r.field.name.None?
      && r.field.value == field.value && r.field.selectionStart == field.selectionStart
      && r.field.idSuffix == Some(HexOf(now))
      && |r.page| == |page| + 1 && r.page[..|page|] == page
      && r.page[|page|].id == HiddenId(prefix, r.field.idSuffix)
      && r.page[|page|].name == Trim(field.name.value) != ""
      && r.page[|page|].value == ""
  {
    var fieldName := Trim(field.name.OrElse(""));
    TrimEmptyIffBlank(field.name.OrElse(""));
    if fieldName == "" then InitResult(field, page)
    else
      var suffix := HexOf(now);
      var hidden := HiddenInput(prefix + "-" + suffix, fieldName, "");
      InitResult(field.(name := None, idSuffix := Some(suffix)), page + [hidden])
  }

  /** After initialisation, typing a complete number fills exactly the hidden
      input just created, provided no earlier hidden input has its id. */
  lemma InitThenCompleteFillsOwnHidden(
    field: PhoneInput, prefix: string, now: nat, page: Page, value: string, sel: Option<nat>)
    requires field.name.Some? && !AllSpace(field.name.value)
    requires forall k :: 0 <= k < |page| ==> page[k].id != prefix + "-" + HexOf(now)
    requires |DigitBuffer(value)| == MaxDigits
    ensures
      var init := InitMaskedPhoneInput(field, prefix, now, page);
      var r := HandleInputPhoneField(init.field.(value := value, selectionStart := sel), prefix, init.page);
      && r.page[..|page|] == page
      && r.page[|page|] == HiddenInput(prefix + "-" + HexOf(now), Trim(field.name.value), DigitBuffer(value))
      && r.cursor.Some?
  {
    var init := InitMaskedPhoneInput(field, prefix, now, page);
    var id := HiddenId(prefix, init.field.idSuffix);
    assert id == prefix + "-" + HexOf(now);
    assert FindById(init.page, id) == Some(|page|) by {
      forall k | 0 <= k < |page|
        ensures init.page[k].id != id
      {
        assert init.page[k] == page[k];
      }
    }
    var r := HandleInputPhoneField(init.field.(value := value, selectionStart := sel), prefix, init.page);
    assert r.page == init.page[|page| := init.page[|page|].(value := DigitBuffer(value))];
  }

  /** A field whose initialisation was skipped is still masked (the input
      handler is attached to it regardless), but with no hidden input to fill
      a complete number leaves the cursor where the browser put it. */
  lemma UninitialisedFieldStillMasked(field: PhoneInput, prefix: string, page: Page)
    requires field.idSuffix.None?
    requires forall k :: 0 <= k < |page| ==> page[k].id != prefix + "-undefined"
    ensures
      var r := HandleInputPhoneField(field, prefix, page);
      && DigitsOf(r.field.value) == DigitBuffer(field.value)
      && r.page == page
      && (r.cursor.None? <==> |DigitBuffer(field.value)| == MaxDigits)
  {
    var r := HandleInputPhoneField(field, prefix, page);
    assert FindById(page, HiddenId(prefix, field.idSuffix)).None?;
    assert forall k :: 0 <= k < |page| ==> r.page[k] == page[k];
  }

  // ---------------------------------------------------------------------
  // Two fields initialised in the same millisecond
  // ---------------------------------------------------------------------

  /** As written, the suffix is the millisecond clock alone: two phone fields
      initialised in the same millisecond get hidden inputs with one id, and
      a complete number typed into the second lands in the FIRST field's
      hidden input while the second's stays empty. */
  lemma SameMillisecondFillsWrongHidden(
    f1: PhoneInput, f2: PhoneInput, prefix: string, now: nat, value: string, sel: Option<nat>)
    requires f1.name.Some? && !AllSpace(f1.name.value)
    requires f2.name.Some? && !AllSpace(f2.name.value)
    requires |DigitBuffer(value)| == MaxDigits
    ensures
      var i1 := InitMaskedPhoneInput(f1, prefix, now, []);
      var i2 := InitMaskedPhoneInput(f2, prefix, now, i1.page);
      var r := HandleInputPhoneField(i2.field.(value := value, selectionStart := sel), prefix, i2.page);
      && |r.page| == 2
      && r.page[0] == HiddenInput(prefix + "-" + HexOf(now), Trim(f1.name.value), DigitBuffer(value))
      && r.page[1] == HiddenInput(prefix + "-" + HexOf(now), Trim(f2.name.value), "")
  {
    var id := prefix + "-" + HexOf(now);
    var i1 := InitMaskedPhoneInput(f1, prefix, now, []);
    assert i1.page == [HiddenInput(id, Trim(f1.name.value), "")];
    var i2 := InitMaskedPhoneInput(f2, prefix, now, i1.page);
    assert i2.page == i1.page + [HiddenInput(id, Trim(f2.name.value), "")];
    assert HiddenId(prefix, i2.field.idSuffix) == id;
    assert FindById(i2.page, id) == Some(0);
    var r := HandleInputPhoneField(i2.field.(value := value, selectionStart := sel), prefix, i2.page);
    assert r.page == i2.page[0 := i2.page[0].(value := DigitBuffer(value))];
  }

  /** Every hidden input's id ends with `-` and its own position in hex. */
  predicate StampedIds(page: Page) {
    forall k :: 0 <= k < |page| ==> LastSegment(page[k].id, '-') == HexOf(k)
  }

  predicate DistinctIds(page: Page) {
    forall j, k :: 0 <= j < k < |page| ==> page[j].id != page[k].id
  }

  lemma StampedIdsDistinct(page: Page)
    requires StampedIds(page)
    ensures DistinctIds(page)
  {
    forall j, k | 0 <= j < k < |page|
      ensures page[j].id != page[k].id
    {
      if page[j].id == page[k].id {
        HexOfInjective(j, k);
      }
    }
  }

  /** Initialisation with a suffix that cannot repeat: the hexadecimal time
      followed by `-` and the position of the new hidden input. */
  function InitMaskedPhoneInputUnique(field: PhoneInput, prefix: string, now: nat, page: Page): (r: InitResult)
    requires StampedIds(page)
    ensures StampedIds(r.page) && DistinctIds(r.page)
    ensures field.name.None? || AllSpace(field.name.value) ==> r == InitResult(field, page)
    ensures field.name.Some? && !AllSpace(field.name.value) ==>
      && r.field.name.None?
      && r.field.value == field.value && r.field.selectionStart == field.selectionStart
      && |r.page| == |page| + 1 && r.page[..|page|] == page
      && r.page[|page|].id == HiddenId(prefix, r.field.idSuffix)
      && r.page[|page|].name == Trim(field.name.value) != ""
      && r.page[|page|].value == ""
  {
    var fieldName := Trim(field.name.OrElse(""));
    TrimEmptyIffBlank(field.name.OrElse(""));
    if fieldName == "" then
      StampedIdsDistinct(page);
      InitResult(field, page)
    else
      var suffix := HexOf(now) + "-" + HexOf(|page|);
      var id := prefix + "-" + suffix;
      var hidden := HiddenInput(id, fieldName, "");
      var page' := page + [hidden];
      assert id == (prefix + "-" + HexOf(now)) + ['-'] + HexOf(|page|);
      LastSegmentAfterSep(prefix + "-" + HexOf(now), HexOf(|page|), '-');
      assert StampedIds(page') by {
        forall k | 0 <= k < |page'|
          ensures LastSegment(page'[k].id, '-') == HexOf(k)
        {
          if k < |page| { assert page'[k] == page[k]; }
        }
      }
      StampedIdsDistinct(page');
      InitResult(field.(name := None, idSuffix := Some(suffix)), page')
  }

  /** With the unique suffix, typing a complete number into any freshly
      initialised field fills exactly its own hidden input, however many
      fields were initialised before it in the same millisecond. */
  lemma UniqueInitThenCompleteFillsOwnHidden(
    field: PhoneInput, prefix: string, now: nat, page: Page, value: string, sel: Option<nat>)
    requires StampedIds(page)
    requires field.name.Some? && !AllSpace(field.name.value)
    requires |DigitBuffer(value)| == MaxDigits
    ensures
      var init := InitMaskedPhoneInputUnique(field, prefix, now, page);
      var r := HandleInputPhoneField(init.field.(value := value, selectionStart := sel), prefix, init.page);
      && r.page[..|page|] == page
      && r.page[|page|].name == Trim(field.name.value)
      && r.page[|page|].value == DigitBuffer(value)
      && r.cursor.Some?
  {
    var init := InitMaskedPhoneInputUnique(field, prefix, now, page);
    var id := HiddenId(prefix, init.field.idSuffix);
    assert FindById(init.page, id) == Some(|page|) by {
      forall k | 0 <= k < |page|
        ensures init.page[k].id != id
      {
        assert init.page[k].id != init.page[|page|].id;
      }
    }
  }
}
