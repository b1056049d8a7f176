/**
 * The `exceptionFactory` of the global validation pipe: the failed properties become the keys
 * of an `errors` object, each mapped to the messages of its constraints, in a 422 exception.
 */
module Validation {
  import opened Errors

  /** One failed constraint of a property: its name (`isNotEmpty`, ...) and its message. */
  datatype Constraint = Constraint(name: string, message: string)

  /** A class-validator `ValidationError`, with `constraints` in insertion order. */
  datatype ValidationError = ValidationError(property: string, constraints: seq<Constraint>)

  /** The thrown `HttpException`: its status and its body `{ errors }`. */
  datatype ValidationException = ValidationException(status: int, errors: map<string, seq<string>>)

  /** `Object.values(constraints)`: the messages, in insertion order. */
  function Messages(constraints: seq<Constraint>): (r: seq<string>)
    ensures |r| == |constraints|
    ensures forall k :: 0 <= k < |constraints| ==> r[k] == constraints[k].message
  {
    seq(|constraints|, k requires 0 <= k < |constraints| => constraints[k].message)
  }

  /** The error at `i` is the last one in `es` for its property, so its entry is the one kept. */
  ghost predicate IsLastFor(es: seq<ValidationError>, i: int)
    requires 0 <= i < |es|
  {
    forall j :: i < j < |es| ==> es[j].property != es[i].property
  }

  /** The properties of the first `n` errors. */
  ghost function Properties(es: seq<ValidationError>, n: nat): set<string>
    requires n <= |es|
  {
    set i | 0 <= i < n :: es[i].property
  }

  lemma PropertiesStep(es: seq<ValidationError>, n: nat)
    requires n < |es|
    ensures Properties(es, n + 1) == Properties(es, n) + {es[n].property}
  {
    assert es[n].property in Properties(es, n + 1);
  }

  /** Builds the exception; a property repeated in the list keeps the messages of its last error. */
  method ExceptionFactory(validationErrors: seq<ValidationError>) returns (ex: ValidationException)
    ensures ex.status == UNPROCESSABLE_ENTITY
    ensures ex.errors.Keys == Properties(validationErrors, |validationErrors|)
    ensures forall i :: 0 <= i < |validationErrors| && IsLastFor(validationErrors, i) ==>
              ex.errors[validationErrors[i].property] == Messages(validationErrors[i].constraints)
    ensures validationErrors == [] ==> ex.errors == map[]
  {
    var errors: map<string, seq<string>> := map[];
    for n := 0 to |validationErrors|
      invariant errors.Keys == Properties(validationErrors, n)
      invariant forall i :: 0 <= i < n && (forall j :: i < j < n ==> validationErrors[j].property != validationErrors[i].property) ==>
                  validationErrors[i].property in errors && errors[validationErrors[i].property] == Messages(validationErrors[i].constraints)
    {
      var er := validationErrors[n];
      PropertiesStep(validationErrors, n);
      errors := errors[er.property := Messages(er.constraints)];
    }
    ex := ValidationException(UNPROCESSABLE_ENTITY, errors);
  }
}
