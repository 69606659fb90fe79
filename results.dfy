/** Option, Result and the exceptions the dispatch engine can raise. */
module Results {

  datatype Option<T> = None | Some(value: T)

  /** The Java exceptions that escape the dispatch engine. `IndexOutOfBounds` stands for
      both `ArrayIndexOutOfBoundsException` (reading `nums[0]` of an empty array) and
      `IndexOutOfBoundsException` (`get(0)` on an empty list). */
  datatype Error = IllegalArgument | IndexOutOfBounds

  datatype Result<T> = Success(value: T) | Failure(error: Error)

  /** How a `void` operation ended: normally, or with an uncaught exception. */
  datatype Outcome = Completed | Threw(error: Error)
}
