/**
 * The exceptions the cache can throw, as values: a failing operation returns
 * `Failure(e)` where the Java code throws.
 */
module CacheErrors {
  datatype CacheError =
    | NullPointer(message: string)      // java.lang.NullPointerException
    | IllegalArgument(message: string)  // java.lang.IllegalArgumentException
    | CacheException(message: string)   // com.LRUCACHE.exceptions.CacheException
}
