/**
 * The submit handler every form gets. The browser's own submission is
 * suppressed; each required field has its border set to the error colour
 * when its trimmed value is empty and to the neutral colour otherwise; an
 * invalid form stops there, behind an alert. A valid form disables its
 * submit button, swaps its label for a busy spinner and, after a fixed
 * delay, resets the fields and restores the label saved at submit time.
 */
module Forms {

  import opened JsStrings

  /** The inline border colour a field carries. */
  datatype Border = Unstyled | ErrorBorder | NeutralBorder

  /** A form control: its current value, the value `form.reset()` restores,
      whether it carries the `required` attribute, and its border. */
  datatype Field = Field(value: string, defaultValue: string, required: bool, border: Border)

  /** The submit button's label: the caption it was authored with, or the
      spinner shown while a message is being sent. */
  datatype Label = Caption(name: string) | Sending

  datatype Button = Button(content: Label, disabled: bool)

  /** A form with its submit button. `pending` holds, in firing order, the
      label saved by each scheduled completion that has not fired yet. */
  datatype Form = Form(fields: seq<Field>, button: Button, pending: seq<Label>)

  datatype Validation = Validation(fields: seq<Field>, isValid: bool)

  /** One field's check: a required field gets the error border when its
      trimmed value is empty and the neutral border otherwise; any other
      field is left alone. */
  function CheckField(f: Field): (r: Field)
    ensures r.value == f.value && r.defaultValue == f.defaultValue && r.required == f.required
    ensures !f.required ==> r == f
    ensures f.required ==> (r.border == ErrorBorder <==> IsBlank(f.value))
    ensures f.required ==> (r.border == NeutralBorder <==> !IsBlank(f.value))
  {
    TrimEmptyIffBlank(f.value);
    if !f.required then f
    else if Trim(f.value) == [] then f.(border := ErrorBorder)
    else f.(border := NeutralBorder)
  }

  /** The `isValid` flag the pass accumulates: cleared by the first blank
      required field and never set again. */
  function AllRequiredFilled(fields: seq<Field>): (r: bool)
    ensures r <==> forall i :: 0 <= i < |fields| && fields[i].required ==> !IsBlank(fields[i].value)
  {
    if fields == [] then true
    else
      TrimEmptyIffBlank(fields[0].value);
      var ok := !fields[0].required || Trim(fields[0].value) != [];
      ok && AllRequiredFilled(fields[1..])
  }

  /** The validation pass over the fields, in document order: every field
      is checked on its own value alone, and the form is valid exactly when
      no required field is blank. */
  function Validate(fields: seq<Field>): (r: Validation)
    ensures |r.fields| == |fields|
    ensures forall i :: 0 <= i < |fields| ==> r.fields[i] == CheckField(fields[i])
    ensures r.isValid <==> forall i :: 0 <= i < |fields| && fields[i].required ==> !IsBlank(fields[i].value)
  {
    Validation(seq(|fields|, i requires 0 <= i < |fields| => CheckField(fields[i])), AllRequiredFilled(fields))
  }

  /** `form.reset()`: every value back to its default; the inline borders
      set by validation stay. */
  function Reset(fields: seq<Field>): (r: seq<Field>)
    ensures |r| == |fields|
    ensures forall i :: 0 <= i < |r| ==>
      r[i] == fields[i].(value := fields[i].defaultValue)
  {
    seq(|fields|, i requires 0 <= i < |fields| => fields[i].(value := fields[i].defaultValue))
  }

  /** The submit event. */
  function Submit(form: Form): (r: Form)
    ensures r.fields == Validate(form.fields).fields
    ensures !Validate(form.fields).isValid ==> r.button == form.button && r.pending == form.pending
    ensures Validate(form.fields).isValid ==>
      r.button == Button(Sending, true) && r.pending == form.pending + [form.button.content]
  {
    var v := Validate(form.fields);
    if v.isValid then Form(v.fields, Button(Sending, true), form.pending + [form.button.content])
    else Form(v.fields, form.button, form.pending)
  }

  /** The delayed completion of the oldest valid submission: fields reset,
      the label it saved put back, the button enabled. It only exists once
      a valid submission scheduled it. */
  function Complete(form: Form): (r: Form)
    requires form.pending != []
    ensures r.fields == Reset(form.fields)
    ensures r.button == Button(form.pending[0], false)
    ensures r.pending == form.pending[1..]
  {
    Form(Reset(form.fields), Button(form.pending[0], false), form.pending[1..])
  }

  /** No submission is in flight and the button shows its own caption. */
  predicate Idle(form: Form) {
    form.pending == [] && !form.button.disabled && form.button.content.Caption?
  }

  /** A submission is in flight. */
  predicate Busy(form: Form) {
    |form.pending| == 1 && form.button == Button(Sending, true) && form.pending[0].Caption?
  }

  /** The button's cycle: from idle, a valid submit makes the form busy and
      its completion makes it idle again with the very same button and the
      fields back to their defaults; an invalid submit keeps it idle with
      the same button. */
  lemma SubmitCycle(form: Form)
    requires Idle(form)
    ensures Validate(form.fields).isValid ==> Busy(Submit(form))
    ensures Validate(form.fields).isValid ==>
      var done := Complete(Submit(form));
      Idle(done) && done.button == form.button
      && forall i :: 0 <= i < |done.fields| ==> done.fields[i].value == form.fields[i].defaultValue
    ensures !Validate(form.fields).isValid ==> Idle(Submit(form)) && Submit(form).button == form.button
  {
    var v := Validate(form.fields);
    if v.isValid {
      var busy := Submit(form);
      assert busy.pending == [form.button.content];
      var done := Complete(busy);
      assert done.button == Button(form.button.content, false);
      forall i | 0 <= i < |done.fields|
        ensures done.fields[i].value == form.fields[i].defaultValue
      {
        assert done.fields[i].value == busy.fields[i].defaultValue;
      }
    }
  }

  /** A blank required field A next to a
      filled required field B blocks the submission, flags A and leaves B
      neutral. */
  lemma BlankFieldBlocksSubmit(button: Button, pending: seq<Label>)
    ensures var r := Submit(Form([Field("", "", true, Unstyled), Field("x", "", true, Unstyled)], button, pending));
            r.button == button && r.pending == pending
            && r.fields[0].border == ErrorBorder && r.fields[1].border == NeutralBorder
  {
    var a := Field("", "", true, Unstyled);
    var b := Field("x", "", true, Unstyled);
    var fields := [a, b];
    assert IsBlank(a.value);
    assert !IsBlank(b.value) by {
      assert b.value[0] == 'x';
    }
    var v := Validate(fields);
    assert fields[0] == a && fields[1] == b;
    assert v.fields[0] == CheckField(a) && v.fields[1] == CheckField(b);
    assert !v.isValid by {
      assert fields[0].required && IsBlank(fields[0].value);
    }
  }

  /** The handler does not look at the button's state: when a second valid
      submit reaches it while the first is in flight (a scripted
      `requestSubmit`, say), that submit saves the spinner as the label to
      restore, and once both completions have fired the button is enabled
      but still shows the spinner. */
  lemma OverlappingSubmitsKeepSpinner(form: Form)
    requires Idle(form)
    requires Validate(form.fields).isValid
    ensures var twice := Submit(Submit(form));
            twice.pending == [form.button.content, Sending]
            && Complete(Complete(twice)).button == Button(Sending, false)
  {
    var once := Submit(form);
    ValidationIgnoresBorders(form.fields, once.fields);
  }

  /** Validity depends on the values alone, not on borders left by an
      earlier pass. */
  lemma ValidationIgnoresBorders(a: seq<Field>, b: seq<Field>)
    requires |a| == |b|
    requires forall i :: 0 <= i < |a| ==> a[i].value == b[i].value && a[i].required == b[i].required
    ensures Validate(a).isValid == Validate(b).isValid
  {
  }
}
