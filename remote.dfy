/** How a remote call ends for the client: the request either reaches the server, whose
    answer is then settled, or it is lost on the way. */
module Remote {
  import Js
  import opened Server

  /** Whether a request gets through. A lost request never reaches the server. */
  datatype Link = Up | Down(message: string)

  /** A settled promise: a value, or the value it was rejected with. */
  datatype Settled<T> = Ok(value: T) | Failed(thrown: Js.Thrown)

  /** The text a client error carries when a procedure's input schema refused the input. */
  const SchemaRejection: string := "Invalid input"

  /** `mutateAsync` on a procedure's outcome: its value, or an error carrying its message. */
  function Settle<T>(o: Outcome<T>): (r: Settled<T>)
    ensures r.Ok? <==> o.Returned?
    ensures r.Ok? ==> r.value == o.value
    ensures r.Failed? ==> r.thrown.ErrorObject?
    ensures o.Threw? ==> r == Failed(Js.ErrorObject(o.message))
  {
    match o
    case Returned(v) => Ok(v)
    case Rejected => Failed(Js.ErrorObject(SchemaRejection))
    case Threw(m) => Failed(Js.ErrorObject(m))
  }
}
