/** The creation form: five values and five touched flags, changed by
    keystrokes and by submission. */
module Form {
  import opened Wrappers
  import opened Providers
  import opened Validation
  import opened Text
  import Widget

  /** `initialState`: every value empty. */
  const Blank: Provider := ByField("", "", "", "", "")

  /** A touched record with the same flag for every key. */
  function AllFlags(b: bool): (t: ByField<bool>)
    ensures forall k :: t.Get(k) == b
  {
    ByField(b, b, b, b, b)
  }

  /** The pattern of key `k`, as the predicate handed to that key's
      input widget. */
  function PatternTest(k: Field): string -> bool {
    (v: string) => Pattern(k, v)
  }

  /** Whether key `k`'s message is on screen: the form passes the message
      text only while `errorShown(k)` holds, and the widget renders its
      error element only while its own pattern test fails and its own
      `touched` flag is set. */
  function MessageVisible(k: Field, fields: Provider, touched: ByField<bool>, widgetTouched: bool): (r: bool)
    ensures r <==> touched.Get(k) && widgetTouched && !Pattern(k, fields.Get(k)) && !FieldValid(k, fields.Get(k))
  {
    ErrorShown(k, fields, touched) && Widget.ErrorRendered(Some(PatternTest(k)), widgetTouched, fields.Get(k))
  }

  /** A key whose value fails only the blank check, such as a last name of
      two spaces, blocks submission yet never shows its message: the
      widget's pattern accepts white space. */
  lemma BlankNameHidden(fields: Provider, touched: ByField<bool>, widgetTouched: bool, k: Field)
    requires IsRequired(k) && k != EmailAddress
    requires AllSpace(fields.Get(k)) && |fields.Get(k)| >= 2
    ensures !AllValid(fields)
    ensures !MessageVisible(k, fields, touched, widgetTouched)
  {
    var v := fields.Get(k);
    assert NamePattern(v) by {
      forall c | c in v ensures IsNameChar(c) {
        var i :| 0 <= i < |v| && v[i] == c;
      }
    }
    RequiredBlankBlocksSubmit(fields, k);
  }

  /** Submitting marks the form's flags only: a key whose widget was never
      changed or blurred shows no message after a failed submit. */
  lemma UntouchedWidgetHidden(k: Field, fields: Provider)
    ensures !MessageVisible(k, fields, AllFlags(true), false)
  {
  }

  class ProviderForm {
    var fields: Provider
    var touched: ByField<bool>

    /** A fresh form: empty values, nothing touched, so no error shows. */
    constructor ()
      ensures fields == Blank && touched == AllFlags(false)
      ensures forall k :: !ErrorShown(k, fields, touched)
    {
      fields := Blank;
      touched := AllFlags(false);
    }

    /** Submission is enabled iff every field is valid. */
    function SubmitEnabled(): (r: bool)
      reads this
      ensures r <==> forall k :: FieldValid(k, fields.Get(k))
    {
      AllValid(fields)
    }

    /** `handleChange(key)(value)`: only that value and that flag change. */
    method HandleChange(k: Field, v: string)
      modifies this
      ensures fields == old(fields).Set(k, v)
      ensures touched == old(touched).Set(k, true)
      ensures ErrorShown(k, fields, touched) <==> !FieldValid(k, v)
      ensures forall j :: j != k ==> ErrorShown(j, fields, touched) == old(ErrorShown(j, fields, touched))
    {
      fields := fields.Set(k, v);
      touched := touched.Set(k, true);
    }

    /** `handleSubmit`: every flag is set; a valid form then emits exactly
        its values and resets, an invalid one emits nothing, keeps its
        values, and `errorShown(k)` holds for every invalid key. */
    method HandleSubmit() returns (submitted: Option<Provider>)
      modifies this
      ensures old(AllValid(fields)) ==> submitted == Some(old(fields))
      ensures old(AllValid(fields)) ==> fields == Blank && touched == AllFlags(false)
      ensures !old(AllValid(fields)) ==> submitted == None
      ensures !old(AllValid(fields)) ==> fields == old(fields) && touched == AllFlags(true)
      ensures !old(AllValid(fields)) ==> forall k :: ErrorShown(k, fields, touched) <==> !FieldValid(k, fields.Get(k))
    {
      touched := AllFlags(true);
      if AllValid(fields) {
        submitted := Some(fields);
        fields := Blank;
        touched := AllFlags(false);
      } else {
        submitted := None;
      }
    }
  }

  /** The tests' round trip: typing the sample record into a fresh form
      enables submission, which emits the record field for field and leaves
      the form empty. */
  method SampleSubmission()
  {
    var form := new ProviderForm();
    form.HandleChange(LastName, "Smith");
    form.HandleChange(FirstName, "John");
    form.HandleChange(EmailAddress, "john@smith.com");
    form.HandleChange(Specialty, "Cardiology");
    form.HandleChange(PracticeName, "Smith Clinic");
    assert form.fields == SampleProvider;
    SampleProviderAccepted();
    assert form.SubmitEnabled();
    var submitted := form.HandleSubmit();
    assert submitted == Some(SampleProvider);
    assert form.fields == Blank;
  }
}
