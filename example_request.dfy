/**
 * The `ExampleRequest` record and the constraints declared on its fields,
 * written as an explicit table of (field, rule) pairs that one validation
 * pass applies in declaration order, collecting every violation.
 */
module Validation {
  import opened Wrappers
  import opened Conversions
  import IsEvenAttribute

  /** The request body; the strings are nullable references, the numbers C# `int`s. */
  datatype ExampleRequest = ExampleRequest(
    name: Option<string>,
    description: Option<string>,
    someValue: Int32,
    email: Option<string>,
    evenNumber: Int32)

  /** A record with every property left at its default (null or 0). */
  const Default: ExampleRequest := ExampleRequest(None, None, 0, None, 0)

  datatype Field = Name | Description | SomeValue | Email | EvenNumber

  predicate IsTextField(f: Field) {
    f == Name || f == Description || f == Email
  }

  /** The validation attributes the record uses. */
  datatype Rule =
    | Required
    | StringLength(maximumLength: nat)
    | Range(minimum: int, maximum: int)
    | EmailAddress
    | IsEven

  predicate IsTextRule(r: Rule) {
    r.Required? || r.StringLength? || r.EmailAddress?
  }

  /** An attribute attached to a property. */
  datatype Constraint = Constraint(field: Field, rule: Rule)

  /** A text rule sits on a text property and a number rule on a number property. */
  predicate WellKinded(c: Constraint) {
    IsTextRule(c.rule) <==> IsTextField(c.field)
  }

  /** The value of one property, as the attribute sees it. */
  datatype Value = Text(text: Option<string>) | Number(number: Int32)

  /**
   * A rule's own message (`IsEven` is constructed with one), or the
   * framework's default text for the built-in attributes.
   */
  datatype ErrorMessage = Custom(text: string) | FrameworkDefault

  /** One entry of the aggregated error list. */
  datatype FieldError = FieldError(field: Field, rule: Rule, message: ErrorMessage)

  /** The attributes of `ExampleRequest`, in declaration order. */
  const Constraints: seq<Constraint> := [
    Constraint(Name, Required),
    Constraint(Description, StringLength(1000)),
    Constraint(SomeValue, Range(1, 100)),
    Constraint(Email, EmailAddress),
    Constraint(EvenNumber, IsEven)
  ]

  function ValueOf(req: ExampleRequest, f: Field): (v: Value)
    ensures v.Text? <==> IsTextField(f)
  {
    match f
    case Name => Text(req.name)
    case Description => Text(req.description)
    case SomeValue => Number(req.someValue)
    case Email => Text(req.email)
    case EvenNumber => Number(req.evenNumber)
  }

  /**
   * Whether a value passes a rule. The e-mail syntax test belongs to the
   * framework and is the parameter `isEmail`; an absent value passes it.
   */
  function Passes(rule: Rule, v: Value, isEmail: string -> bool): (ok: bool)
    requires IsTextRule(rule) <==> v.Text?
    ensures rule.Required? && (v.text.None? || v.text.value == "") ==> !ok
    ensures (rule.StringLength? || rule.EmailAddress?) && v.text.None? ==> ok
    ensures rule.StringLength? && v.text.Some? ==> (ok <==> |v.text.value| <= rule.maximumLength)
    ensures rule.Range? ==> (ok <==> rule.minimum <= v.number <= rule.maximum)
    ensures rule.IsEven? ==> (ok <==> v.number % 2 == 0)
  {
    match rule
    case Required => v.text.Some? && v.text.value != ""
    case StringLength(max) => v.text.None? || |v.text.value| <= max
    case EmailAddress => v.text.None? || isEmail(v.text.value)
    case Range(lo, hi) => lo <= v.number <= hi
    case IsEven =>
      // A 32-bit value always converts, so the verdict here is never a
      // ConversionFailure (see EvenNumberRule): only Valid or Invalid.
      IsEvenAttribute.IntegerVerdict(v.number);
      IsEvenAttribute.IsValid(IntVal(v.number)).Valid?
  }

  predicate Holds(c: Constraint, req: ExampleRequest, isEmail: string -> bool)
    requires WellKinded(c)
  {
    Passes(c.rule, ValueOf(req, c.field), isEmail)
  }

  function MessageOf(rule: Rule): ErrorMessage {
    if rule.IsEven? then Custom(IsEvenAttribute.NotEvenMessage) else FrameworkDefault
  }

  function ErrorOf(c: Constraint): FieldError {
    FieldError(c.field, c.rule, MessageOf(c.rule))
  }

  predicate AllWellKinded(cs: seq<Constraint>) {
    forall i :: 0 <= i < |cs| ==> WellKinded(cs[i])
  }

  /** Applies every constraint, in order, and collects one error per violated constraint. */
  function ValidateAll(cs: seq<Constraint>, req: ExampleRequest, isEmail: string -> bool): (errors: seq<FieldError>)
    requires AllWellKinded(cs)
    ensures |errors| <= |cs|
    ensures forall e :: e in errors ==> e.message == MessageOf(e.rule)
    decreases |cs|
  {
    if cs == [] then []
    else
      var rest := ValidateAll(cs[1..], req, isEmail);
      if Holds(cs[0], req, isEmail) then rest else [ErrorOf(cs[0])] + rest
  }

  /** The list is empty exactly when every constraint holds. */
  lemma {:induction false} ValidateAllEmptyIff(cs: seq<Constraint>, req: ExampleRequest, isEmail: string -> bool)
    requires AllWellKinded(cs)
    ensures ValidateAll(cs, req, isEmail) == [] <==> forall i :: 0 <= i < |cs| ==> Holds(cs[i], req, isEmail)
    decreases |cs|
  {
    if cs != [] {
      ValidateAllEmptyIff(cs[1..], req, isEmail);
      if ValidateAll(cs, req, isEmail) == [] {
        forall i | 0 <= i < |cs| ensures Holds(cs[i], req, isEmail) {
          if i > 0 { assert cs[i] == cs[1..][i - 1]; }
        }
      } else if Holds(cs[0], req, isEmail) {
        var j :| 0 <= j < |cs[1..]| && !Holds(cs[1..][j], req, isEmail);
        assert cs[1..][j] == cs[j + 1];
      }
    }
  }

  /** An error is reported for a constraint exactly when that constraint is violated. */
  lemma {:induction false} ValidateAllMembership(cs: seq<Constraint>, req: ExampleRequest, isEmail: string -> bool, e: FieldError)
    requires AllWellKinded(cs)
    ensures e in ValidateAll(cs, req, isEmail) <==>
            exists i :: 0 <= i < |cs| && !Holds(cs[i], req, isEmail) && e == ErrorOf(cs[i])
    decreases |cs|
  {
    if cs != [] {
      ValidateAllMembership(cs[1..], req, isEmail, e);
      if e in ValidateAll(cs[1..], req, isEmail) {
        var j :| 0 <= j < |cs[1..]| && !Holds(cs[1..][j], req, isEmail) && e == ErrorOf(cs[1..][j]);
        assert cs[1..][j] == cs[j + 1];
      }
      if exists i :: 0 <= i < |cs| && !Holds(cs[i], req, isEmail) && e == ErrorOf(cs[i]) {
        var i :| 0 <= i < |cs| && !Holds(cs[i], req, isEmail) && e == ErrorOf(cs[i]);
        if i > 0 { assert cs[i] == cs[1..][i - 1]; }
      }
    }
  }

  /** No two constraints attach to the same field. */
  predicate DistinctFields(cs: seq<Constraint>) {
    forall i, j :: 0 <= i < j < |cs| ==> cs[i].field != cs[j].field
  }

  /** No field is reported twice. */
  predicate OneErrorPerField(errors: seq<FieldError>) {
    forall i, j :: 0 <= i < j < |errors| ==> errors[i].field != errors[j].field
  }

  /** With one constraint per field, every reported field is reported once. */
  lemma {:induction false} ValidateAllOneErrorPerField(cs: seq<Constraint>, req: ExampleRequest, isEmail: string -> bool)
    requires AllWellKinded(cs) && DistinctFields(cs)
    ensures OneErrorPerField(ValidateAll(cs, req, isEmail))
    decreases |cs|
  {
    if cs != [] {
      var rest := ValidateAll(cs[1..], req, isEmail);
      ValidateAllOneErrorPerField(cs[1..], req, isEmail);
      if !Holds(cs[0], req, isEmail) {
        forall k | 0 <= k < |rest| ensures rest[k].field != cs[0].field {
          ValidateAllMembership(cs[1..], req, isEmail, rest[k]);
          var j :| 0 <= j < |cs[1..]| && !Holds(cs[1..][j], req, isEmail) && rest[k] == ErrorOf(cs[1..][j]);
          assert cs[1..][j] == cs[j + 1];
        }
        var errors := [ErrorOf(cs[0])] + rest;
        forall i, j | 0 <= i < j < |errors| ensures errors[i].field != errors[j].field {
          assert errors[j] == rest[j - 1];
          if i > 0 { assert errors[i] == rest[i - 1]; }
        }
      }
    }
  }

  /**
   * The constraints stated field by field, independently of the table:
   * `Name` present and non-empty, `Description` absent or at most 1000
   * characters, `SomeValue` within 1..100 inclusive, `Email` absent or an
   * address, `EvenNumber` divisible by 2.
   */
  predicate FieldValid(req: ExampleRequest, f: Field, isEmail: string -> bool) {
    match f
    case Name => req.name.Some? && |req.name.value| > 0
    case Description => req.description.None? || |req.description.value| <= 1000
    case SomeValue => 1 <= req.someValue <= 100
    case Email => req.email.None? || isEmail(req.email.value)
    case EvenNumber => req.evenNumber % 2 == 0
  }

  function ErrorFields(errors: seq<FieldError>): set<Field> {
    set e | e in errors :: e.field
  }

  lemma ConstraintsWellFormed()
    ensures AllWellKinded(Constraints) && DistinctFields(Constraints)
  {
  }

  /** Where a field's constraint sits in the table. */
  function ConstraintIndex(f: Field): (i: nat)
    ensures i < |Constraints| && Constraints[i].field == f
  {
    match f
    case Name => 0
    case Description => 1
    case SomeValue => 2
    case Email => 3
    case EvenNumber => 4
  }

  /** The table's constraint on field `f` holds exactly when the field-by-field statement does. */
  lemma ConstraintMatchesField(req: ExampleRequest, isEmail: string -> bool, i: nat)
    requires i < |Constraints|
    ensures WellKinded(Constraints[i])
    ensures Holds(Constraints[i], req, isEmail) <==> FieldValid(req, Constraints[i].field, isEmail)
  {
    if i == 4 {
      IsEvenAttribute.IntegerVerdict(req.evenNumber);
    }
  }

  /** Every error the table reports is the error of a violated field, and no field is reported twice. */
  lemma {:induction false} TableReportsOnlyViolations(req: ExampleRequest, isEmail: string -> bool)
    ensures AllWellKinded(Constraints)
    ensures forall e :: e in ValidateAll(Constraints, req, isEmail) ==>
              !FieldValid(req, e.field, isEmail) && e == ErrorOf(Constraints[ConstraintIndex(e.field)])
    ensures OneErrorPerField(ValidateAll(Constraints, req, isEmail))
  {
    ConstraintsWellFormed();
    ValidateAllOneErrorPerField(Constraints, req, isEmail);
    forall e | e in ValidateAll(Constraints, req, isEmail)
      ensures !FieldValid(req, e.field, isEmail) && e == ErrorOf(Constraints[ConstraintIndex(e.field)])
    {
      ValidateAllMembership(Constraints, req, isEmail, e);
      var i :| 0 <= i < |Constraints| && !Holds(Constraints[i], req, isEmail) && e == ErrorOf(Constraints[i]);
      ConstraintMatchesField(req, isEmail, i);
    }
  }

  /**
   * `ExampleRequest`'s validation pass: the error list of the request body.
   * Each entry names a field whose constraint is violated, with that
   * constraint's rule and message, and no field appears twice.
   */
  function Validate(req: ExampleRequest, isEmail: string -> bool): (errors: seq<FieldError>)
    ensures |errors| <= |Constraints|
    ensures forall e :: e in errors ==>
              !FieldValid(req, e.field, isEmail) && e == ErrorOf(Constraints[ConstraintIndex(e.field)])
    ensures OneErrorPerField(errors)
  {
    TableReportsOnlyViolations(req, isEmail);
    ValidateAll(Constraints, req, isEmail)
  }

  /** A field is reported exactly when its constraint is violated. */
  lemma ValidateReportsViolatedFields(req: ExampleRequest, isEmail: string -> bool, f: Field)
    ensures f in ErrorFields(Validate(req, isEmail)) <==> !FieldValid(req, f, isEmail)
  {
    ConstraintsWellFormed();
    var i := ConstraintIndex(f);
    ConstraintMatchesField(req, isEmail, i);
    var e := ErrorOf(Constraints[i]);
    ValidateAllMembership(Constraints, req, isEmail, e);
    if f in ErrorFields(Validate(req, isEmail)) {
      var e' :| e' in Validate(req, isEmail) && e'.field == f;
      ValidateAllMembership(Constraints, req, isEmail, e');
      var j :| 0 <= j < |Constraints| && !Holds(Constraints[j], req, isEmail) && e' == ErrorOf(Constraints[j]);
      assert i == j;
    }
  }

  /**
   * The error list is empty iff every field's constraint holds, and it has
   * exactly one entry per violated field.
   */
  lemma ValidateSpec(req: ExampleRequest, isEmail: string -> bool)
    ensures Validate(req, isEmail) == [] <==> forall f :: FieldValid(req, f, isEmail)
    ensures OneErrorPerField(Validate(req, isEmail))
    ensures ErrorFields(Validate(req, isEmail)) == set f | !FieldValid(req, f, isEmail)
  {
    ConstraintsWellFormed();
    ValidateAllOneErrorPerField(Constraints, req, isEmail);
    forall f ensures f in ErrorFields(Validate(req, isEmail)) <==> !FieldValid(req, f, isEmail) {
      ValidateReportsViolatedFields(req, isEmail, f);
    }
    if Validate(req, isEmail) != [] {
      assert Validate(req, isEmail)[0].field in ErrorFields(Validate(req, isEmail));
    }
  }

  lemma NameRule(req: ExampleRequest, isEmail: string -> bool)
    ensures Name in ErrorFields(Validate(req, isEmail)) <==> req.name.None? || req.name.value == ""
  {
    ValidateReportsViolatedFields(req, isEmail, Name);
  }

  lemma DescriptionRule(req: ExampleRequest, isEmail: string -> bool)
    ensures Description in ErrorFields(Validate(req, isEmail)) <==>
            req.description.Some? && |req.description.value| > 1000
  {
    ValidateReportsViolatedFields(req, isEmail, Description);
  }

  lemma SomeValueRule(req: ExampleRequest, isEmail: string -> bool)
    ensures SomeValue in ErrorFields(Validate(req, isEmail)) <==> req.someValue < 1 || 100 < req.someValue
  {
    ValidateReportsViolatedFields(req, isEmail, SomeValue);
  }

  lemma EmailRule(req: ExampleRequest, isEmail: string -> bool)
    ensures Email in ErrorFields(Validate(req, isEmail)) <==> req.email.Some? && !isEmail(req.email.value)
  {
    ValidateReportsViolatedFields(req, isEmail, Email);
  }

  /**
   * `EvenNumber` is reported exactly when `IsEven` rejects it, with the
   * attribute's message; being a 32-bit property, it always converts.
   */
  lemma EvenNumberRule(req: ExampleRequest, isEmail: string -> bool)
    ensures !IsEvenAttribute.IsValid(IntVal(req.evenNumber)).ConversionFailure?
    ensures EvenNumber in ErrorFields(Validate(req, isEmail)) <==>
            IsEvenAttribute.IsValid(IntVal(req.evenNumber)) == IsEvenAttribute.Invalid(IsEvenAttribute.NotEvenMessage)
  {
    ValidateReportsViolatedFields(req, isEmail, EvenNumber);
    IsEvenAttribute.IntegerVerdict(req.evenNumber);
  }

  /** `{Name "A", SomeValue 2, EvenNumber 4}`, optional fields absent, has no errors. */
  lemma AcceptedExample(isEmail: string -> bool)
    ensures Validate(ExampleRequest(Some("A"), None, 2, None, 4), isEmail) == []
  {
    IsEvenAttribute.IntegerVerdict(4);
  }

  /** The same record with `EvenNumber 3` has exactly one error, on `EvenNumber`. */
  lemma RejectedExample(isEmail: string -> bool)
    ensures Validate(ExampleRequest(Some("A"), None, 2, None, 3), isEmail) ==
            [FieldError(EvenNumber, IsEven, Custom("Value is not an even number"))]
  {
    IsEvenAttribute.IntegerVerdict(3);
  }
}
