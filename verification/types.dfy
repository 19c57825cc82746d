/**
 Value types shared by the employee cache and the employee service: the
 employee record, the upstream response envelope, and the outcome of a call
 that may raise an exception.
 */
module Types {

  /** A Java reference that may be null: None is null, Some(v) is a reference to v. */
  datatype Option<+T> = None | Some(value: T) {

    /** The referenced value, or default when the reference is null. */
    function GetOr(default: T): T {
      match this
      case Some(v) => v
      case None => default
    }
  }

  /** A java.util.UUID: 128 bits. */
  newtype Uuid = x: int | 0 <= x < 0x1_0000_0000_0000_0000_0000_0000_0000_0000

  /** A java.lang.Integer value (salary, age). No arithmetic is done on it, only comparison. */
  newtype Int32 = x: int | -0x8000_0000 <= x < 0x8000_0000

  /** An employee record as returned by the upstream service; every field may be null. */
  datatype Employee = Employee(
    id: Option<Uuid>,
    name: Option<string>,
    salary: Option<Int32>,
    age: Option<Int32>,
    title: Option<string>,
    email: Option<string>)

  /** The upstream envelope: a payload that may be null and a status string that may be null. */
  datatype Response<T> = Response(data: Option<T>, status: Option<string>)

  /** The status the cache writes into responses it builds itself. */
  const Success: string := "SUCCESS"

  /** The exceptions that can surface from the components modelled here. */
  datatype Fault =
    | NotFound          // EmployeeNotFoundException, raised by the client on HTTP 404
    | UpstreamError     // any other failure of the HTTP client
    | NullDereference   // NullPointerException

  /** The outcome of a Java call: a returned value or a raised exception. */
  datatype Call<+T> = Returned(value: T) | Threw(fault: Fault)

  /** What the upstream client answers: an envelope, a null body (None), or an exception. */
  type Reply<T> = Call<Option<Response<T>>>

  /**
   The cache hands an upstream reply on unchanged, except that it reads the
   payload of the body first, so a null body raises NullPointerException.
   */
  function PassedOn<T>(reply: Reply<T>): Call<Response<T>> {
    match reply
    case Threw(f) => Threw(f)
    case Returned(None) => Threw(NullDereference)
    case Returned(Some(r)) => Returned(r)
  }

  /** The payload an upstream reply delivers, if it delivers one. */
  function Payload<T>(reply: Reply<T>): Option<T> {
    match reply
    case Returned(Some(r)) => r.data
    case _ => None
  }
}
