/** Optional values and results with the exception kinds the source raises. */
module Wrappers {

  datatype Option<+T> = None | Some(value: T)

  /** The exceptions of the C# trees and the TypeError of the TypeScript tree,
      each kept distinct so that an invalid bucket index never reads as an
      empty result. */
  datatype Error =
    | IndexOutOfRange      // ArgumentOutOfRangeException of the List<T> indexer (index outside [0, Count)), and the bucket GetKClosestTo cannot find
    | ArgumentException    // "The given identifier does not match the 2^m limit"
    | InvalidOperation     // Enumerable.First() on an empty sequence
    | EmptyLookup          // "Lookup cannot return empty list!"
    | TypeError            // JavaScript property access on null or undefined
    | RandomExhausted      // the random byte source ran dry (see IdentifierGeneration)

  datatype Result<+T> = Success(value: T) | Failure(error: Error)

  /** The completion of a void method: it returned, or it threw. */
  datatype Outcome = Done | Thrown(error: Error)
}
