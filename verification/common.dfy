/**
 * Shared vocabulary of the user/role backend: optional values, 32-bit integers,
 * timestamps, and the uniform success/failure envelope every service returns.
 */
module Common {

  datatype Option<+T> = None | Some(value: T)

  /** A timestamp in .NET ticks (100 ns units); the clock itself is a parameter everywhere. */
  type Time = int

  const TicksPerHour: int := 36_000_000_000

  const Int32Min: int := -0x8000_0000
  const Int32Max: int := 0x7FFF_FFFF

  /** The range of a C# `int`. */
  type Int32 = x: int | Int32Min <= x <= Int32Max

  /** C# unchecked `int` arithmetic: the mathematical value reduced into the 32-bit range. */
  function Wrap32(x: int): (r: Int32)
    ensures r % 0x1_0000_0000 == x % 0x1_0000_0000
    ensures Int32Min <= x <= Int32Max ==> r == x
  {
    var m := x % 0x1_0000_0000;
    if m <= Int32Max then m else m - 0x1_0000_0000
  }

  // HTTP status codes carried by failures.
  const StatusOk: int := 200
  const StatusCreated: int := 201
  const StatusBadRequest: int := 400
  const StatusUnauthorized: int := 401
  const StatusNotFound: int := 404
  const StatusConflict: int := 409
  const StatusInternal: int := 500

  const DefaultFailureMessage: string := "Operation Failed."

  /**
   * The result envelope. The C# class has a private constructor and two
   * factories; here the two factories are the two constructors, so a value is
   * either a success carrying data or a failure carrying a message, never both.
   * The default arguments are the factories' defaults.
   */
  datatype OperationResult<+T> =
    | Success(data: T, code: int := StatusOk)
    | Failure(errorMessage: string := DefaultFailureMessage, code: int := StatusBadRequest)
  {
    predicate IsSuccess() {
      Success?
    }

    /** `Data`: the payload on success; `default(T)` (here None) on failure. */
    function Data(): (d: Option<T>)
      ensures d.Some? <==> IsSuccess()
      ensures IsSuccess() ==> d == Some(data)
    {
      match this
      case Success(x, _) => Some(x)
      case Failure(_, _) => None
    }

    /** `ErrorMessage`: null (None) on success, the message on failure. */
    function Message(): (m: Option<string>)
      ensures m.None? <==> IsSuccess()
      ensures !IsSuccess() ==> m == Some(errorMessage)
    {
      match this
      case Success(_, _) => None
      case Failure(msg, _) => Some(msg)
    }
  }

  /** The two factories with their default arguments fill the four fields as the class does. */
  lemma FactoryDefaults<T>(d: T, msg: string, c: int)
    ensures var s: OperationResult<T> := Success(d);
      s.IsSuccess() && s.Data() == Some(d) && s.Message() == None && s.code == StatusOk
    ensures var s: OperationResult<T> := Success(d, c);
      s.IsSuccess() && s.Data() == Some(d) && s.Message() == None && s.code == c
    ensures var f: OperationResult<T> := Failure();
      !f.IsSuccess() && f.Data() == None && f.Message() == Some(DefaultFailureMessage) && f.code == StatusBadRequest
    ensures var f: OperationResult<T> := Failure(msg, c);
      !f.IsSuccess() && f.Data() == None && f.Message() == Some(msg) && f.code == c
  {
  }
}
