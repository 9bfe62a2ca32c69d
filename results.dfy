/** Option and Result wrappers, and the errors the two scripts can raise. */
module Results {

  datatype Option<+T> = None | Some(value: T)

  /** A value, or the error a JavaScript `throw` (or a failed property read) would raise. */
  datatype Result<+T> = Success(value: T) | Failure(error: Error)

  datatype Error =
    /** `getCalldata` throws `new Error("method[<name>] not found.")`. */
    | MethodNotFound(message: string)
    /**
     * `functions[name]` is a member every object inherits (`toString`, `constructor`, ...):
     * the not-found test passes, and `fn.encode(args)` raises a TypeError.
     */
    | NotAnAbiFunction(name: string)
    /** The ABI encoder was given a different number of arguments than the function declares. */
    | ArgumentCountMismatch(expected: nat, given: nat)
    /** The ABI encoder rejected the argument at this position (bad address, not an integer, out of range). */
    | InvalidArgument(position: nat)
    /** `parseUnits` rejected the gas price. */
    | GasPriceRejected
    /** `networks[chainId]` is undefined, so reading `.address` raises a TypeError. */
    | NetworkNotDeclared(chainId: int)
    /** `parseLog` could not decode the kept log with this `logIndex`, so `evt.name` raises. */
    | LogNotDecoded(logIndex: nat)
    /** The transaction library refused to build or serialise the field record. */
    | TransactionRejected
}
