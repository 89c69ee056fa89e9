/**
 * `ExampleController`: `Get` answers with a canned record for id 1 and
 * "not found" otherwise; `Add` answers OK without a body and is reached only
 * with a request that passed validation.
 */
module ExampleController {
  import opened Wrappers
  import opened Conversions
  import opened Validation

  /** The handler results: OK with an optional body, or Not Found. */
  datatype ActionResult = Ok(body: Option<ExampleRequest>) | NotFound

  /** `new ExampleRequest { Name = "Example1" }`: every other property at its default. */
  const Example1: ExampleRequest := Default.(name := Some("Example1"))

  function Get(id: Int32): (r: ActionResult)
    ensures r.Ok? <==> id == 1
    ensures r.Ok? ==> r.body.Some?
  {
    if id == 1 then Ok(Some(Example1)) else NotFound
  }

  /** `Add` ignores its argument; the validation pass in front of it is its precondition. */
  function Add(example: ExampleRequest, isEmail: string -> bool): (r: ActionResult)
    requires Validate(example, isEmail) == []
    ensures r.Ok? && r.body.None?
  {
    Ok(None)
  }

  /** `Get(1)` carries a record named "Example1" with everything else absent or zero. */
  lemma GetExample1()
    ensures Get(1).Ok? && Get(1).body.Some?
    ensures var rec := Get(1).body.value;
      rec.name == Some("Example1") && rec.description.None? && rec.email.None? &&
      rec.someValue == 0 && rec.evenNumber == 0
  {
  }

  /** Every other id is Not Found, with no record. */
  lemma GetOtherIsNotFound(id: Int32)
    requires id != 1
    ensures Get(id) == NotFound
  {
  }

  /**
   * The record `Get(1)` returns would not pass validation: its `SomeValue`
   * of 0 breaks `Range(1, 100)`, and that is its only violation. The Get
   * path never validates it.
   */
  lemma GetRecordFailsValidation(isEmail: string -> bool)
    ensures Validate(Get(1).body.value, isEmail) == [FieldError(SomeValue, Range(1, 100), FrameworkDefault)]
  {
    IsEvenAttribute.IntegerVerdict(0);
  }

  /** Whatever valid request `Add` receives, it answers the same. */
  lemma AddIgnoresArgument(a: ExampleRequest, b: ExampleRequest, isEmail: string -> bool)
    requires Validate(a, isEmail) == [] && Validate(b, isEmail) == []
    ensures Add(a, isEmail) == Add(b, isEmail) == Ok(None)
  {
  }
}
