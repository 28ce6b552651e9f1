/**
 * The error taxonomy of the discovery utility: `LinglishException` and its
 * three kinds, returned as the failure side of a `Result` instead of raised.
 */
module Errors {

  /** The three subclasses of `LinglishException`. */
  datatype ErrorKind = BadBus | BadApplication | InspecificApplication

  /** A raised exception: its class and the argument list `self.args`. */
  datatype LinglishException = LinglishException(kind: ErrorKind, args: seq<string>)

  /** What a raising operation hands back: a value, or the exception it raised. */
  datatype Result<T> = Ok(value: T) | Err(error: LinglishException)

  /** The placeholder that stands in for an empty argument. */
  const Unspecified: string := "unspecified"

  /** `[x or 'unspecified' for x in args]`. */
  function DefaultArgs(args: seq<string>): (r: seq<string>)
    ensures |r| == |args|
    ensures forall i :: 0 <= i < |args| && args[i] == "" ==> r[i] == Unspecified
    ensures forall i :: 0 <= i < |args| && args[i] != "" ==> r[i] == args[i]
  {
    if args == [] then []
    else [if args[0] == "" then Unspecified else args[0]] + DefaultArgs(args[1..])
  }

  /** `kind(*args)`: the constructor of every exception kind. */
  function Raise(kind: ErrorKind, args: seq<string>): (e: LinglishException)
    ensures e.kind == kind
    ensures |e.args| == |args|
    ensures forall i :: 0 <= i < |args| ==> e.args[i] == (if args[i] == "" then Unspecified else args[i])
    ensures forall i :: 0 <= i < |e.args| ==> e.args[i] != ""
  {
    LinglishException(kind, DefaultArgs(args))
  }

  /** Defaulting is applied argument by argument, so it keeps the order of the arguments. */
  lemma DefaultArgsAppend(a: seq<string>, b: seq<string>)
    ensures DefaultArgs(a + b) == DefaultArgs(a) + DefaultArgs(b)
  {
  }

  /** Constructing an exception from the arguments of another keeps them. */
  lemma DefaultArgsIdempotent(args: seq<string>)
    ensures DefaultArgs(DefaultArgs(args)) == DefaultArgs(args)
  {
  }
}
