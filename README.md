# Request validation of the example API, in Dafny

This project models the logic of a small ASP.NET example API. The API has one
resource with two handlers. `ExampleController.Get(id)` returns a canned
record for id 1 and Not Found for every other id. `ExampleController.Add`
accepts an `ExampleRequest` and answers OK with no body. The request class
declares five field constraints: `Required` on `Name`, `StringLength(1000)`
on `Description`, `Range(1, 100)` on `SomeValue`, `EmailAddress` on `Email`
and the custom `IsEven` on `EvenNumber`.

The model has four parts, all of them pure functions and lemmas:

- `conversions.dfy` (module `Conversions`) models C#'s 32-bit `int`. It
  abstracts `Convert.ToInt32(object)` over an argument that is an integer of
  any size, a null reference, or something unconvertible. It also defines C#'s
  truncating remainder by 2, which differs from Dafny's Euclidean `%` on
  negative numbers.
- `is_even_attribute.dfy` (module `IsEvenAttribute`) models the custom rule.
  It has three outcomes: `Valid`, `Invalid` with the fixed message "Value is
  not an even number", or `ConversionFailure` when the conversion throws.
- `example_request.dfy` (module `Validation`) holds the request record and its
  constraints. The constraints are an explicit table of (field, rule) pairs.
  One pass applies them in declaration order and collects every violation.
  Separately, each field's constraint is stated on its own (`FieldValid`), and
  lemmas connect the two.
- `example_controller.dfy` (module `ExampleController`) models the two
  handlers. `Add` has a precondition: only a request with an empty error list
  reaches it.

Two framework facts the code relies on:

- `Convert.ToInt32` maps a null reference to 0, so `IsValid(null)` is valid.
- The e-mail syntax check belongs to the framework. It is the parameter
  `isEmail` of every validation function, and an absent value passes it.

As written, `IsValid` lets `Convert.ToInt32`'s exception propagate. The
model gives that outcome its own verdict, `ConversionFailure`. On the request
it cannot happen, because `EvenNumber` is a 32-bit `int`
(`Validation.EvenNumberRule`).

## Model

| member | source | states |
|---|---|---|
| Conversions.ToInt32 | src/Configuration/IsEvenAttribute.cs:14 | null converts to 0, an in-range integer converts to itself, an out-of-range integer fails with Overflow, an unconvertible value fails with InvalidFormat |
| Conversions.RemainderBy2 | src/Configuration/IsEvenAttribute.cs:15 | C#'s `% 2` is the value of magnitude at most 1, carrying the dividend's sign (or zero), that differs from the dividend by an even amount |
| Conversions.RemainderBy2ZeroIff | src/Configuration/IsEvenAttribute.cs:15 | C#'s remainder by 2 is zero exactly when Dafny's Euclidean one is |
| Conversions.OddNegativeRemainder | src/Configuration/IsEvenAttribute.cs:15 | an odd negative number has C# remainder -1, not 1 |
| IsEvenAttribute.IsValid | src/Configuration/IsEvenAttribute.cs:8-16 | conversion failure exactly when `Convert.ToInt32` throws, with its error; otherwise valid iff the converted value is even; a rejection always carries the constructor's message |
| IsEvenAttribute.IntegerVerdict | src/Configuration/IsEvenAttribute.cs:14-15 | for every 32-bit n, the verdict is Valid iff n % 2 == 0, else Invalid with the fixed message |
| IsEvenAttribute.ZeroIsValid | src/Configuration/IsEvenAttribute.cs:14-15 | 0 (the default of the `EvenNumber` field) is valid, and so is null |
| IsEvenAttribute.SignIrrelevant | src/Configuration/IsEvenAttribute.cs:15 | n and -n get the same verdict whenever -n is still 32-bit |
| IsEvenAttribute.MinValueNegationOverflows | src/Configuration/IsEvenAttribute.cs:14-15 | int.MinValue is valid, but 2^31, passed as a 64-bit value, overflows the conversion |
| IsEvenAttribute.StepByTwo | src/Configuration/IsEvenAttribute.cs:15 | n and n + 2 get the same verdict within the 32-bit range |
| IsEvenAttribute.ConversionFailureIsDistinct | src/Configuration/IsEvenAttribute.cs:14 | an unconvertible or out-of-range input is a conversion failure (InvalidFormat or Overflow), never Valid or Invalid |
| IsEvenAttribute.MessageIsFixed | src/Configuration/IsEvenAttribute.cs:8 | every rejection, whatever the input, carries "Value is not an even number" |
| Validation.Passes | src/Controllers/ExampleController.cs:28-37 | the attributes' tests: Required fails on absent or empty, StringLength and EmailAddress pass on absent, StringLength passes iff the length is at most its maximum, Range iff inclusive bounds hold, IsEven iff the number is even; per-field consequences in NameRule, DescriptionRule, SomeValueRule, EmailRule, EvenNumberRule |
| Validation.ValidateAll | src/Controllers/ExampleController.cs:26-38 | no more errors than constraints, each carrying its rule's message |
| Validation.ValidateAllEmptyIff | src/Controllers/ExampleController.cs:26-38 | the error list is empty iff every constraint holds |
| Validation.ValidateAllMembership | src/Controllers/ExampleController.cs:26-38 | an error is in the list iff it is the error of a violated constraint |
| Validation.ValidateAllOneErrorPerField | src/Controllers/ExampleController.cs:26-38 | with one constraint per field, no field is reported twice |
| Validation.ConstraintMatchesField | src/Controllers/ExampleController.cs:28-37 | each table entry is well-kinded and holds iff the field's own constraint holds |
| Validation.ValidateReportsViolatedFields | src/Controllers/ExampleController.cs:28-37 | a field is reported iff its own constraint is violated |
| Validation.TableReportsOnlyViolations | src/Controllers/ExampleController.cs:26-38 | every error of the table's pass belongs to a field whose own constraint is violated, and no field is reported twice |
| Validation.Validate | src/Controllers/ExampleController.cs:26-38 | every entry names a violated field, with that field's rule and message, and no field appears twice; the converse (every violated field is reported, empty iff all hold) is ValidateSpec |
| Validation.ValidateSpec | src/Controllers/ExampleController.cs:28-37 | the request's error list is empty iff all five constraints hold; it has one entry per field; its fields are exactly the violated ones |
| Validation.NameRule | src/Controllers/ExampleController.cs:28-29 | Name is reported iff it is absent or empty |
| Validation.DescriptionRule | src/Controllers/ExampleController.cs:30-31 | Description is reported iff present and longer than 1000 |
| Validation.SomeValueRule | src/Controllers/ExampleController.cs:32-33 | SomeValue is reported iff it lies outside 1..100 inclusive |
| Validation.EmailRule | src/Controllers/ExampleController.cs:34-35 | Email is reported iff present and not an address |
| Validation.EvenNumberRule | src/Controllers/ExampleController.cs:36-37 | EvenNumber always converts; it is reported iff IsEven rejects it with the fixed message |
| Validation.AcceptedExample | src/Controllers/ExampleController.cs:28-37 | {Name "A", SomeValue 2, EvenNumber 4}, optional fields absent, has no errors |
| Validation.RejectedExample | src/Controllers/ExampleController.cs:28-37 | the same record with EvenNumber 3 has exactly one error, on EvenNumber, with IsEven's message |
| ExampleController.Get | src/Controllers/ExampleController.cs:11-17 | OK with a body iff id == 1, Not Found otherwise |
| ExampleController.GetExample1 | src/Controllers/ExampleController.cs:13-14 | Get(1)'s record has Name "Example1", no Description or Email, and SomeValue and EvenNumber 0 |
| ExampleController.GetOtherIsNotFound | src/Controllers/ExampleController.cs:13-16 | every id other than 1 gives Not Found with no record |
| ExampleController.GetRecordFailsValidation | src/Controllers/ExampleController.cs:14 | Get(1)'s record would fail validation with exactly one error, Range(1, 100) on SomeValue |
| ExampleController.Add | src/Controllers/ExampleController.cs:20-23 | reached only with a request whose error list is empty; answers OK with no body |
| ExampleController.AddIgnoresArgument | src/Controllers/ExampleController.cs:20-23 | Add gives the same answer, OK with no body, for every valid request |

## Left out

- Routing, HTTP status codes, JSON serialisation and the handling of malformed bodies are framework plumbing. Handler results are the datatype `Ok(body) | NotFound`.
- The framework mechanism that answers 400 before `Add` runs is not modelled. It is the precondition of `Add`.
- Reflection-based discovery of the attributes is replaced by the explicit table `Validation.Constraints`.
- Validation.NameRule: `Required` is modelled as "fails when absent or empty". The framework also rejects whitespace-only strings; that belongs to the framework, not to this repository.
- The e-mail syntax belongs to the framework. It is the parameter `isEmail`, and an absent value passes it.
- The default message texts of `Required`, `StringLength`, `Range` and `EmailAddress` are framework resources. Their errors carry `FrameworkDefault` instead of a text.
- `Convert.ToInt32`'s dispatch over .NET types is abstracted. Its argument is an integer of any size, null, or unconvertible. Parsing numeric text and rounding floating-point values are not modelled.
- Conversions.RemainderBy2: models C#'s `%` only for the divisor 2, the only divisor the source uses.
- String lengths are counted in Dafny characters, not UTF-16 code units.
- IsEvenAttribute.SignIrrelevant: the negation is mathematical, not C#'s wrapping `int` negation (which maps int.MinValue to itself), which is why its precondition excludes int.MinValue.
