/**
 * The error taxonomy: an error code (`ErrC`) and the error record (`Error`)
 * that travels on the error side of a `Result_`.
 */
module Errors {

  /** The error codes. The first six are the codes of the library's list, in
      list order; `Overflow` is used by the numeric conversions although the
      list does not declare it. */
  datatype ErrC = None | NotFound | InvalidArg | NoMemory | NotImplemented | Generic | Overflow

  /** True for the codes that the list declares. */
  predicate IsListed(c: ErrC) {
    c != Overflow
  }

  /** The underlying 16-bit enumerator value. The listed codes number 0..5 in
      list order; `Overflow` has no enumerator and is given the next value. */
  function Value(c: ErrC): (v: nat)
    ensures v < 0x1_0000
    ensures IsListed(c) <==> v < 6
  {
    match c
    case None => 0
    case NotFound => 1
    case InvalidArg => 2
    case NoMemory => 3
    case NotImplemented => 4
    case Generic => 5
    case Overflow => 6
  }

  /** A default-constructed code is `None`. */
  function DefaultCode(): (c: ErrC)
    ensures Value(c) == 0
  {
    None
  }

  /** Equality of codes compares the underlying value. */
  function CodesEqual(a: ErrC, b: ErrC): (eq: bool)
    ensures eq <==> a == b
  {
    Value(a) == Value(b)
  }

  /** The identifier text of a code; "???" for a code outside the list. */
  function ToString(c: ErrC): (s: string)
    ensures IsListed(c) ==> FromString(s) == Some(c)
    ensures !IsListed(c) ==> s == "???"
  {
    match c
    case None => "None"
    case NotFound => "NotFound"
    case InvalidArg => "InvalidArg"
    case NoMemory => "NoMemory"
    case NotImplemented => "NotImplemented"
    case Generic => "Generic"
    case Overflow => "???"
  }

  /** The inverse of `ToString` on the listed codes: the code an identifier names. */
  datatype MaybeCode = Nothing | Some(code: ErrC)

  function FromString(s: string): MaybeCode {
    if s == "None" then Some(None)
    else if s == "NotFound" then Some(NotFound)
    else if s == "InvalidArg" then Some(InvalidArg)
    else if s == "NoMemory" then Some(NoMemory)
    else if s == "NotImplemented" then Some(NotImplemented)
    else if s == "Generic" then Some(Generic)
    else Nothing
  }

  /** The human-readable description of a code; "???" outside the list. */
  function Description(c: ErrC): (s: string)
    ensures !IsListed(c) <==> s == "???"
  {
    match c
    case None => "No error has occurred."
    case NotFound => "The resource could not be located."
    case InvalidArg => "An invalid argument was provided."
    case NoMemory => "No memory left."
    case NotImplemented => "This feature has not been implimented."
    case Generic => "I couldn't think of what the error should be."
    case Overflow => "???"
  }

  /** Distinct listed codes have distinct names and distinct descriptions. */
  lemma NamesAndDescriptionsDistinct(a: ErrC, b: ErrC)
    requires IsListed(a) && IsListed(b) && a != b
    ensures ToString(a) != ToString(b)
    ensures Description(a) != Description(b)
  {
    assert FromString(ToString(a)) == Some(a);
    assert FromString(ToString(b)) == Some(b);
  }

  /** The error record: a static message and a code. */
  datatype Error = Error(msg: string, code: ErrC)

  /** The message every constructor without an explicit message leaves in place. */
  const DefaultMessage: string := "---"

  /** `Error{}`: default message, code `None`. */
  function DefaultError(): (e: Error)
    ensures e.msg == "---" && e.code == None
  {
    Error(DefaultMessage, DefaultCode())
  }

  /** `Error(code)`: default message, the given code. */
  function FromCode(c: ErrC): (e: Error)
    ensures e.msg == "---" && e.code == c
  {
    Error(DefaultMessage, c)
  }

  /** `Error(msg, code)`. */
  function WithMessage(m: string, c: ErrC): (e: Error)
    ensures e.msg == m && e.code == c
  {
    Error(m, c)
  }
}
