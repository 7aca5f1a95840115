/** Error values, and the option and result types shared by every stage.
    The repository uses an `anyhow`-style error whose only structure is
    a message and an optional context wrapped around a cause. */
module Errors {

  datatype Error =
    | Io(what: string)                      // a foreign I/O call failed
    | Decode(what: string)                  // a foreign decoder rejected its input
    | SinkError                             // the receiving end of a channel is gone
    | Context(msg: string, cause: Error)    // `.context(..)` wrapped around a cause

  datatype Option<+T> = None | Some(value: T)

  datatype Result<+T> = Ok(value: T) | Err(error: Error) {
    predicate IsFailure() { Err? }

    function PropagateFailure<U>(): Result<U>
      requires Err?
    {
      Err(error)
    }

    function Extract(): T
      requires Ok?
    {
      value
    }
  }

  /** `anyhow::Context`: keep a success, wrap a failure in a message. */
  function WithContext<T>(r: Result<T>, msg: string): (r': Result<T>)
    ensures r'.Ok? <==> r.Ok?
    ensures r.Ok? ==> r' == r
    ensures r.Err? ==> r'.error == Context(msg, r.error)
  {
    match r
    case Ok(v) => Ok(v)
    case Err(e) => Err(Context(msg, e))
  }
}
