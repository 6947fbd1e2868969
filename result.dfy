/**
  The immutable success/failure records of Result.cs.

  `Result<D>` is the non-generic base class (D is the type of the optional structured
  `Details`, an `object?` in the source) and `ResultOf<T, D>` is `Result<T>`, which adds a
  nullable `Value`. Every instance is built through a constructor the class keeps
  non-public, so the factories below are the only ways to obtain one; `WellFormed` is the
  invariant they all establish.
*/
module Results {
  import opened Wrappers

  /** ResultErrorCode, with its numeric values. */
  datatype ResultErrorCode = None | Concurrency | NotFound | Validation | Conflict
  {
    function Code(): (n: nat)
      ensures n <= 4
      ensures this == None <==> n == 0
    {
      match this
      case None => 0
      case Concurrency => 1
      case NotFound => 2
      case Validation => 3
      case Conflict => 4
    }
  }

  /** The base `Result`: success flag, error message, error code and details. */
  datatype Result<D> = Result(success: bool, error: Option<string>, errorCode: ResultErrorCode, details: Option<D>)
  {
    /** `Failure => !Success` */
    predicate Failure() { !success }
  }

  /** `Result<T>`: a base result together with a nullable value. */
  datatype ResultOf<T, D> = ResultOf(result: Result<D>, value: Option<T>)
  {
    predicate Success() { result.success }
    predicate Failure() { result.Failure() }
  }

  /** What every factory guarantees: a success carries no error information, a failure carries an
      error message and the default (null) value. */
  ghost predicate WellFormed<T, D>(r: ResultOf<T, D>)
  {
    && (r.Success() ==> r.result.error.Null? && r.result.errorCode == None && r.result.details.Null?)
    && (r.Failure() ==> r.result.error.Some? && r.value.Null?)
  }

  /** `Result.Ok()` */
  function Ok<D>(): (r: Result<D>)
    ensures r.success && !r.Failure()
    ensures r.error.Null? && r.errorCode == None && r.details.Null?
  {
    Result(true, Null, None, Null)
  }

  /** `Result.Fail(errorMessage, code, details)`; the one- and two-argument overloads pass `None` and null. */
  function Fail<D>(errorMessage: string, code: ResultErrorCode := None, details: Option<D> := Null): (r: Result<D>)
    ensures !r.success && r.Failure()
    ensures r.error == Some(errorMessage) && r.errorCode == code && r.details == details
  {
    Result(false, Some(errorMessage), code, details)
  }

  /** `Result.Ok<T>(value)` and the private `Result<T>.Ok(value)`: the value may be null. */
  function OkOf<T, D>(value: Option<T>): (r: ResultOf<T, D>)
    ensures r.Success() && r.value == value
    ensures WellFormed(r)
  {
    ResultOf(Ok(), value)
  }

  /** `Result.Fail<T>(errorMessage, code, details)` and `Result<T>.Fail(...)`: always the default value. */
  function FailOf<T, D>(errorMessage: string, code: ResultErrorCode := None, details: Option<D> := Null): (r: ResultOf<T, D>)
    ensures r.Failure() && r.value.Null?
    ensures r.result.error == Some(errorMessage) && r.result.errorCode == code && r.result.details == details
    ensures WellFormed(r)
  {
    ResultOf(Fail(errorMessage, code, details), Null)
  }

  const NullValueMessage := "Provided value is null."

  /** `Result.FromValue<T>(value)` */
  function FromValue<T, D>(value: Option<T>): (r: ResultOf<T, D>)
    ensures r.Success() <==> value.Some?
    ensures value.Some? ==> r == OkOf(value)
    ensures value.Null? ==> r == FailOf(NullValueMessage)
    ensures WellFormed(r)
  {
    if value.Some? then OkOf(value) else FailOf(NullValueMessage)
  }

  /** `implicit operator Result<T>(T? value)`: always a success, even for null. */
  function FromImplicit<T, D>(value: Option<T>): (r: ResultOf<T, D>)
    ensures r.Success() && r.value == value
  {
    OkOf(value)
  }

  /** `implicit operator T?(Result<T>? result)`: the value, or the default for a null result. */
  function ToValue<T, D>(r: Option<ResultOf<T, D>>): (v: Option<T>)
    ensures r.Null? ==> v.Null?
    ensures r.Some? ==> v == r.value.value
  {
    match r
    case Null => Null
    case Some(res) => res.value
  }

  /** Converting a value to a result and back gives the value back, null included. */
  lemma ImplicitRoundTrip<T, D>(value: Option<T>)
    ensures ToValue(Some(FromImplicit<T, D>(value))) == value
  {
  }

  /** Converting a failed result to its value always gives null. */
  lemma FailureConvertsToNull<T, D>(r: ResultOf<T, D>)
    requires WellFormed(r) && r.Failure()
    ensures ToValue(Some(r)).Null?
  {
  }

  /** The structured details of an optimistic-concurrency conflict
      (Web.Infrastructure.ConcurrencyConflictInfo, whose source is not part of this model; its
      fields are taken from the two call sites). `F` names the compared fields; the source lists
      them by their property names. */
  datatype ConflictInfo<P, F> = ConflictInfo(serverVersion: int, serverProjection: Option<P>, changedFields: seq<F>)
}
