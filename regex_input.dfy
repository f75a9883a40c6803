/** The input widget: a text box with an optional pattern and its own
    touched flag. The pattern is a predicate on the text. */
module Widget {
  import opened Wrappers

  /** `regex ? regex.test(value) : true` */
  function IsValid(regex: Option<string -> bool>, value: string): (r: bool)
    ensures regex.None? ==> r
    ensures regex.Some? ==> (r <==> regex.value(value))
  {
    match regex
    case None => true
    case Some(test) => test(value)
  }

  /** The error element is rendered iff the value is invalid and the box
      has been touched. */
  predicate ErrorRendered(regex: Option<string -> bool>, touched: bool, value: string)
  {
    !IsValid(regex, value) && touched
  }

  /** Before any change or blur no error shows, even for an invalid value. */
  lemma NoErrorBeforeInteraction(regex: Option<string -> bool>, value: string)
    ensures !ErrorRendered(regex, false, value)
  {
  }

  /** Without a pattern no error ever shows. */
  lemma NoErrorWithoutPattern(touched: bool, value: string)
    ensures !ErrorRendered(None, touched, value)
  {
  }

  /** Once touched, the error shows exactly for the values the pattern
      refuses. */
  lemma ErrorOnceTouched(test: string -> bool, value: string)
    ensures ErrorRendered(Some(test), true, value) <==> !test(value)
  {
  }

  class RegexInput {
    const regex: Option<string -> bool>
    var touched: bool

    constructor (regex: Option<string -> bool>)
      ensures this.regex == regex && !touched
    {
      this.regex := regex;
      touched := false;
    }

    /** `handleChange`: forwards the new text unchanged and marks the box
        touched. */
    method HandleChange(value: string) returns (forwarded: string)
      modifies this
      ensures forwarded == value && touched
    {
      forwarded := value;
      touched := true;
    }

    /** `onBlur`: marks the box touched. */
    method HandleBlur()
      modifies this
      ensures touched
    {
      touched := true;
    }
  }
}
