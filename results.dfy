/** Value-level stand-ins for Java's null and for the exceptions the collection lets escape. */
module Results {

  /** A possibly-absent value: `None` plays the part of a `null` return. */
  datatype Option<+T> = None | Some(value: T)

  /** How a piece of code that may throw finished: normally, or by throwing with a message. */
  datatype Outcome = Pass | Fail(message: string)

  /** The exceptions that reach callers of the collection. */
  datatype Error =
    | UnknownDomainObject(message: string)  // UnknownDomainObjectException from createNotFoundException
    | RuleFailure(message: string)          // whatever a rule threw, propagated unchanged

  /** A value or the exception thrown instead of returning it. */
  datatype Result<+R> = Success(value: R) | Failure(error: Error)
}
