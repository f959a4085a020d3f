/** Optional values and results with an error, shared by the toolbar modules. */
module Wrappers {

  /** `None` stands for JavaScript's `undefined`. */
  datatype Option<+T> = None | Some(value: T)

  /** `Failure` stands for an exception `toolbarItemFactory.ts` lets escape. */
  datatype Result<+R, +E> = Success(value: R) | Failure(error: E)
}
