/** The body and path validators the routes put in front of the handlers.
    A sanitizing `trim()` both checks the trimmed value and hands it on,
    so the handlers receive trimmed strings. Body fields are modelled as
    absent or a string; a date field or an integer field is classified
    by the format check the route applies to it. */
module Validation {
  import opened Http
  import opened Text

  /** A missing body field reads as the empty string. */
  function FieldText(f: Option<string>): (r: string)
    ensures f.None? ==> r == ""
    ensures f.Some? ==> r == f.value
  {
    if f.Some? then f.value else ""
  }

  /** `body(f).trim().isLength({ min: n })`. */
  predicate MinLength(f: Option<string>, n: nat)
  {
    |Trim(FieldText(f))| >= n
  }

  /** `body(f).trim().notEmpty()`. */
  predicate NotBlank(f: Option<string>)
  {
    Trim(FieldText(f)) != ""
  }

  /** `body(f).optional().trim().isLength({ min: n })`: a missing field passes. */
  predicate OptionalMinLength(f: Option<string>, n: nat)
  {
    f.None? || |Trim(f.value)| >= n
  }

  /** The value a `trim()` sanitizer leaves in an optional field. */
  function TrimField(f: Option<string>): (r: Option<string>)
    ensures r.None? <==> f.None?
    ensures r.Some? ==> Trimmed(r.value) && r.value == Trim(f.value)
  {
    if f.Some? then Some(Trim(f.value)) else None
  }

  /** A trimmed field is truthy exactly when the raw one is not blank. */
  lemma TrimFieldTruthy(f: Option<string>)
    ensures Truthy(TrimField(f)) <==> f.Some? && !AllWhitespace(f.value)
  {
    if f.Some? {
      TrimEmptyIff(f.value);
    }
  }

  /** An integer body field as `isInt` sees it. */
  datatype IntField = NoInt | Whole(n: int) | NotWhole

  /** `body(f).optional().isInt({ min: 0 })`. */
  predicate OptionalNat(f: IntField)
  {
    match f
    case NoInt => true
    case Whole(n) => n >= 0
    case NotWhole => false
  }

  /** The field as the handler reads it: absent, or the number given. */
  function IntArg(f: IntField): (r: Arg<int>)
    ensures f.Whole? <==> r.Given?
    ensures f.Whole? ==> r.v == f.n
    ensures !r.Null?
  {
    if f.Whole? then Given(f.n) else Absent
  }

  /** A date body field as `isISO8601` sees it, with the instant it denotes. */
  datatype DateField = NoDate | NotIso8601 | Iso8601(at: int)
}
