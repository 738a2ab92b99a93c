/** The few .NET runtime notions the building blocks rely on: references
    that may be null, exceptions, and a call that either returns or throws. */
module Runtime {

  /** A reference that may be null (`T?` in C#). */
  datatype Nullable<+T> = Null | Ref(value: T)

  /** The exceptions the modelled code can raise. */
  datatype Exception =
    | NoneException(message: string)
    | InvalidOperationException(message: string)
    /** A fault raised by code outside the model, such as a request handler. */
    | HandlerException(message: string)

  /** The outcome of a call that may throw: its value, or the exception. */
  datatype Attempt<+T> = Returned(value: T) | Threw(exception: Exception)
}
