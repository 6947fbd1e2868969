/** Value wrappers shared by the whole model: nullable references and thrown exceptions. */
module Wrappers {

  /** A C# nullable reference: `Null` stands for `null`. */
  datatype Option<+T> = Null | Some(value: T)
  {
    /** `x ?? fallback` */
    function OrElse(fallback: T): (r: T)
      ensures Some? ==> r == value
      ensures Null? ==> r == fallback
    {
      if Some? then value else fallback
    }
  }

  /** The exceptions the modelled code throws, by the .NET type that carries them. */
  datatype Exception =
    | ArgumentNull(paramName: string)        // ArgumentNullException (also thrown for a null string by ThrowIfNullOr...)
    | ArgumentInvalid(paramName: string)     // ArgumentException: empty or white-space string, unknown entity name
    | NullReference                          // dereferencing a null result
    | InvalidOperation                       // Enumerable.First with no matching element
    | DuplicateKey                           // the store refuses a second document with the same _id
    | ImmutableIdAltered                     // the store refuses a replacement whose _id differs from the matched document's

  /** What a `void`/`Task` method does: it returns normally or throws. */
  datatype Outcome = Completed | Threw(ex: Exception)

  /** What a value-returning method does: it returns a value or throws. */
  datatype Try<+T> = Returned(value: T) | Raised(ex: Exception)

  /** `string.IsNullOrEmpty` */
  predicate IsNullOrEmpty(s: Option<string>)
  {
    s.Null? || s.value == ""
  }

  /** `char.IsWhiteSpace` restricted to ASCII: space, and tab through carriage return. */
  predicate IsWhiteSpace(c: char)
  {
    c == ' ' || '\t' <= c <= '\r'
  }

  /** `string.IsNullOrWhiteSpace` */
  predicate IsNullOrWhiteSpace(s: Option<string>)
  {
    s.Null? || forall i :: 0 <= i < |s.value| ==> IsWhiteSpace(s.value[i])
  }

  /** `ArgumentException.ThrowIfNullOrEmpty(s)`: null throws ArgumentNullException, "" throws ArgumentException. */
  function ThrowIfNullOrEmpty(s: Option<string>, paramName: string): (r: Outcome)
    ensures r.Completed? <==> !IsNullOrEmpty(s)
    ensures s.Null? ==> r == Threw(ArgumentNull(paramName))
    ensures s.Some? && s.value == "" ==> r == Threw(ArgumentInvalid(paramName))
  {
    if s.Null? then Threw(ArgumentNull(paramName))
    else if s.value == "" then Threw(ArgumentInvalid(paramName))
    else Completed
  }

  /** `ArgumentException.ThrowIfNullOrWhiteSpace(s)` */
  function ThrowIfNullOrWhiteSpace(s: Option<string>, paramName: string): (r: Outcome)
    ensures r.Completed? <==> !IsNullOrWhiteSpace(s)
    ensures s.Null? ==> r == Threw(ArgumentNull(paramName))
    ensures s.Some? && IsNullOrWhiteSpace(s) ==> r == Threw(ArgumentInvalid(paramName))
  {
    if s.Null? then Threw(ArgumentNull(paramName))
    else if IsNullOrWhiteSpace(s) then Threw(ArgumentInvalid(paramName))
    else Completed
  }

  /** `ArgumentNullException.ThrowIfNull(x)` */
  function ThrowIfNull<T>(x: Option<T>, paramName: string): (r: Outcome)
    ensures r.Completed? <==> x.Some?
    ensures x.Null? ==> r == Threw(ArgumentNull(paramName))
  {
    if x.Null? then Threw(ArgumentNull(paramName)) else Completed
  }
}
