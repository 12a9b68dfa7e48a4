/** Errors of the bundle store and the wrappers it returns them in. */
module Errors {

  /** The operation whose message wraps an error ("failed to store bundle %q", ...). */
  datatype Op = StoreOp | ReadOp | PullOp

  datatype Error =
    | NotTaggedOrDigested(ref: string)     // storePath: "%s: not tagged or digested"
    | NotExist(path: string)               // reading a file that is not there (ENOENT)
    | Unreadable(path: string)             // any other failure to read a file
    | Undecodable(path: string)            // json.Unmarshal rejected the file's content
    | WriteFailed(path: string)            // MkdirAll or WriteFile failed
    | InvalidPath(path: string)            // "invalid path %q in the bundle store"
    | NotJson(path: string)                // "invalid path %q, not referencing a CNAB bundle in json format"
    | Unparsable(s: string)                // reference.ParseNamed rejected the reconstructed name
    | Remote(detail: string)               // whatever the remote pull reports
    | Wrapped(op: Op, ref: string, cause: Error)  // errors.Wrap / errors.Wrapf around a cause

  datatype Result<T> = Ok(value: T) | Err(error: Error)

  datatype Option<T> = None | Some(value: T)

  /** errors.Cause: peel off every wrapper. */
  function Cause(e: Error): (c: Error)
    ensures !c.Wrapped?
    ensures !e.Wrapped? ==> c == e
    ensures e.Wrapped? ==> c == Cause(e.cause)
  {
    match e
    case Wrapped(_, _, inner) => Cause(inner)
    case _ => e
  }

  /** os.IsNotExist(errors.Cause(err)). */
  predicate IsNotExist(e: Error): (b: bool)
    ensures !e.Wrapped? ==> (b <==> e.NotExist?)
    ensures e.Wrapped? ==> b == IsNotExist(e.cause)
  {
    Cause(e).NotExist?
  }
}
