/** Value types shared by the cache model: the library's `Maybe<T>`, a result
    type for operations whose collaborator can throw, and the two .NET value
    types the cache forwards without looking inside them. */
module Types {

  /** `Maybe<T>` of the library; also how a nullable .NET reference is
      modelled (`None` is `null`). */
  datatype Maybe<+T> = None | Some(value: T) {

    /** True if a value is present (`HasValue`). */
    predicate HasValue() {
      Some?
    }
  }

  /** The outcome of a call whose collaborator may throw: `Failure` carries
      the exception that escapes to the caller. */
  datatype Result<+R, +E> = Success(value: R) | Failure(error: E)

  /** A `System.TimeSpan`, as its count of 100-nanosecond ticks. */
  datatype TimeSpan = TimeSpan(ticks: int)

  const TicksPerMillisecond: int := 10000

  /** `TimeSpan.FromMilliseconds` for whole milliseconds. */
  function FromMilliseconds(milliseconds: int): TimeSpan {
    TimeSpan(milliseconds * TicksPerMillisecond)
  }

  /** A `double` (longitude, latitude, radius, distance), carried as its
      IEEE-754 bit pattern; the cache only forwards and copies these. */
  datatype Double = Double(bits: bv64)
}
