/** Shared vocabulary of the InsightBoard model: outcomes, clock ticks,
    32-bit integers, GUID values and a first-match search over a table. */
module Common {

  /** A point on the UTC clock, in seconds. */
  type Tick = int

  const Minute: int := 60
  const Day: int := 24 * 60 * 60

  /** The C# `int` the services take as page number and page size. */
  newtype int32 = x: int | -0x8000_0000 <= x < 0x8000_0000

  /** A .NET `Guid`: a 128-bit value. */
  newtype Guid = x: int | 0 <= x < 0x1_0000_0000_0000_0000_0000_0000_0000_0000

  datatype Option<T> = None | Some(value: T)

  /** The exceptions the services throw. `Fault` stands for an exception that
      comes from the runtime or the ORM rather than from the services, with a
      message the model does not fix. */
  datatype Error =
    | BadRequest(message: string)
    | NotFound(message: string)
    | Unauthorized(message: string)
    | Fault

  /** What a service call returns: a value, or the exception it throws. */
  datatype Result<T> = Ok(value: T) | Fail(error: Error)

  /** Unchecked C# `int` arithmetic: the 32-bit two's-complement value that is
      congruent to `x` modulo 2^32. */
  function Wrap32(x: int): (r: int32)
    ensures (r as int - x) % 0x1_0000_0000 == 0
    ensures -0x8000_0000 <= x < 0x8000_0000 ==> r as int == x
  {
    var m := x % 0x1_0000_0000;
    if m < 0x8000_0000 then m as int32 else (m - 0x1_0000_0000) as int32
  }

  /** The index of the first element of `s` that satisfies `p`, as LINQ's
      `FirstOrDefault` finds it. */
  function FirstWhere<T>(s: seq<T>, p: T -> bool): (r: Option<nat>)
    ensures r.Some? ==> r.value < |s| && p(s[r.value])
    ensures r.Some? ==> forall j :: 0 <= j < r.value ==> !p(s[j])
    ensures r.None? <==> forall j :: 0 <= j < |s| ==> !p(s[j])
  {
    if s == [] then None
    else if p(s[0]) then Some(0)
    else match FirstWhere(s[1..], p)
      case None => None
      case Some(k) => Some(k + 1)
  }
}
